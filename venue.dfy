/** The venue line of an entry: `bold_abbreviation` and `format_venue`. */
module Venue {
  import opened Results
  import opened Text
  import opened Csl

  /** The regular expression \((.*?)\) matches `s[open..close + 1]`:
      `s[open]` is "(", `s[close]` is the first ")" after it, and no line
      break lies between them (the dot does not match a newline). */
  predicate ParenMatch(s: string, open: int, close: int) {
    0 <= open < close < |s| && s[open] == '(' && s[close] == ')' &&
    forall m :: open < m < close ==> s[m] != ')' && s[m] != '\n'
  }

  /** The lazy `.*?` of the pattern, extended one character at a time from
      `k` until a ")" closes the match or a newline makes it fail. */
  function CloseParen(s: string, open: nat, k: nat): (r: Option<nat>)
    requires open < |s| && s[open] == '(' && open < k
    requires forall m :: open < m < k && m < |s| ==> s[m] != ')' && s[m] != '\n'
    ensures r.Some? ==> ParenMatch(s, open, r.value)
    ensures r.None? ==> forall j :: !ParenMatch(s, open, j)
    decreases |s| - k
  {
    if k >= |s| || s[k] == '\n' then None
    else if s[k] == ')' then Some(k)
    else CloseParen(s, open, k + 1)
  }

  /** `re.search(r'\((.*?)\)', s[from..])`: the leftmost start at or after
      `from` where the pattern matches, with the end of that match. */
  function FirstParen(s: string, from: nat): (r: Option<(nat, nat)>)
    ensures r.Some? ==> from <= r.value.0 && ParenMatch(s, r.value.0, r.value.1)
    ensures r.Some? ==> forall k, j :: from <= k < r.value.0 ==> !ParenMatch(s, k, j)
    ensures r.None? ==> forall k, j :: from <= k ==> !ParenMatch(s, k, j)
    decreases |s| - from
  {
    if from >= |s| then None
    else if s[from] == '(' then
      match CloseParen(s, from, from + 1)
      case Some(j) => Some((from, j))
      case None => FirstParen(s, from + 1)
    else FirstParen(s, from + 1)
  }

  /** `bold_abbreviation`: the text between the first "(" and its ")" is
      the abbreviation, and every "(abbreviation)" in the venue becomes
      "(<b>abbreviation</b>)". */
  function BoldAbbreviation(venue: string): (r: string)
    ensures (forall i, j :: !ParenMatch(venue, i, j)) ==> r == venue
  {
    match FirstParen(venue, 0)
    case None => venue
    case Some((i, j)) =>
      var abbrev := venue[i + 1..j];
      ReplaceAll(venue, "(" + abbrev + ")", "(<b>" + abbrev + "</b>)")
  }

  /** The leftmost match is the one FirstParen finds. */
  lemma FirstParenIs(s: string, i: nat, j: nat)
    requires ParenMatch(s, i, j)
    requires forall k, m :: k < i ==> !ParenMatch(s, k, m)
    ensures FirstParen(s, 0) == Some((i, j))
  {
    var first := FirstParen(s, 0);
    if first.Some? {
      var (i', j') := first.value;
      assert !(i' < i) && !(i < i');
      assert !(j < j') && !(j' < j);
    }
  }

  /** A copy of `s[i..j + 1]` starting at `k` is itself a match at `k`. */
  lemma CopyIsMatch(s: string, i: nat, j: nat, k: nat)
    requires ParenMatch(s, i, j)
    requires Occurs(s, s[i..j + 1], k)
    ensures ParenMatch(s, k, k + j - i)
  {
    var pat := s[i..j + 1];
    forall m | k < m < k + j - i ensures s[m] != ')' && s[m] != '\n' {
      assert s[m] == s[k..k + |pat|][m - k] == pat[m - k] == s[i + (m - k)];
    }
    assert s[k] == s[k..k + |pat|][0] == pat[0];
    assert s[k + j - i] == s[k..k + |pat|][j - i] == pat[j - i];
  }

  /** The first parenthesised abbreviation is bolded in place: the text
      before it is unchanged, and the rest of the venue after it only has
      its further copies of "(abbreviation)" bolded. */
  lemma BoldFirst(venue: string, i: nat, j: nat)
    requires ParenMatch(venue, i, j)
    requires forall k, m :: k < i ==> !ParenMatch(venue, k, m)
    ensures var bolded := "(<b>" + venue[i + 1..j] + "</b>)";
      BoldAbbreviation(venue) == venue[..i] + bolded + ReplaceAll(venue[j + 1..], venue[i..j + 1], bolded)
  {
    var pat := venue[i..j + 1];
    var rep := "(<b>" + venue[i + 1..j] + "</b>)";
    FirstParenIs(venue, i, j);
    BoldAt(venue, i, j);
    MatchText(venue, i, j);
    forall k | 0 <= k < i ensures !Occurs(venue, pat, k) {
      if Occurs(venue, pat, k) {
        CopyIsMatch(venue, i, j, k);
      }
    }
    ReplaceAllAt(venue, pat, rep, i);
    assert venue[i + |pat|..] == venue[j + 1..];
  }

  /** Once the match is known, bolding is replacing its copies. */
  lemma BoldAt(venue: string, i: nat, j: nat)
    requires i < j < |venue| && FirstParen(venue, 0) == Some((i, j))
    ensures BoldAbbreviation(venue) ==
      ReplaceAll(venue, "(" + venue[i + 1..j] + ")", "(<b>" + venue[i + 1..j] + "</b>)")
  {
  }

  /** The matched text is the abbreviation in parentheses. */
  lemma MatchText(s: string, i: nat, j: nat)
    requires ParenMatch(s, i, j)
    ensures "(" + s[i + 1..j] + ")" == s[i..j + 1]
  {
  }

  /** One decimal digit. */
  function Digit(d: nat): char
    requires d < 10
  {
    ('0' as int + d) as char
  }

  /** The decimal digits of a natural number, most significant first. */
  function DecimalDigits(n: nat): (r: string)
    ensures |r| > 0 && forall i :: 0 <= i < |r| ==> '0' <= r[i] <= '9'
    decreases n
  {
    if n < 10 then [Digit(n)] else DecimalDigits(n / 10) + [Digit(n % 10)]
  }

  /** The number a run of decimal digits stands for, most significant first. */
  function DigitsValue(s: string): int
    requires forall i :: 0 <= i < |s| ==> '0' <= s[i] <= '9'
    decreases |s|
  {
    if s == [] then 0 else DigitsValue(s[..|s| - 1]) * 10 + (s[|s| - 1] as int - '0' as int)
  }

  /** The digits stand for the number, and only zero is written with a
      leading "0". */
  lemma {:induction false} DecimalDigitsValue(n: nat)
    ensures DigitsValue(DecimalDigits(n)) == n
    ensures n == 0 ==> DecimalDigits(n) == "0"
    ensures n > 0 ==> DecimalDigits(n)[0] != '0'
    decreases n
  {
    if n >= 10 {
      var d := DecimalDigits(n / 10);
      DecimalDigitsValue(n / 10);
      assert (d + [Digit(n % 10)])[..|d|] == d;
    }
  }

  /** Python's `str(n)` for an integer: a minus sign exactly for a negative
      number, then its digits. */
  function IntToString(n: int): (r: string)
    ensures |r| > 0 && (r[0] == '-' <==> n < 0)
  {
    if n < 0 then "-" + DecimalDigits(-n) else DecimalDigits(n)
  }

  /** `str(n)` is the sign, when negative, followed by the digits of the
      magnitude without leading zeros. */
  lemma IntToStringValue(n: int)
    ensures n >= 0 ==> DigitsValue(IntToString(n)) == n
    ensures n < 0 ==> DigitsValue(IntToString(n)[1..]) == -n
    ensures var digits := if n < 0 then IntToString(n)[1..] else IntToString(n);
      |digits| == 1 || digits[0] != '0'
  {
    if n < 0 {
      DecimalDigitsValue(-n);
      assert IntToString(n)[1..] == DecimalDigits(-n);
    } else {
      DecimalDigitsValue(n);
    }
  }

  /** The type that keeps a venue line to the venue name alone. */
  const ConferenceType := "paper-conference"

  /** The venue name with its abbreviation bolded, when the record has one. */
  function ContainerPart(item: Record): seq<string> {
    match item.containerTitle
    case Some(c) => [BoldAbbreviation(c)]
    case None => []
  }

  /** The year, first element of the first "date-parts" list, when the
      record has "issued" with "date-parts"; indexing an empty list raises. */
  function YearPart(item: Record): Result<seq<string>> {
    match item.issued
    case Some(Issued(Some(dateParts))) =>
      if |dateParts| == 0 || |dateParts[0]| == 0 then Err(IndexError("date-parts"))
      else Ok([IntToString(dateParts[0][0])])
    case _ => Ok([])
  }

  /** "volume(issue)", when the record has both. */
  function VolumeIssuePart(item: Record): seq<string> {
    if item.issue.Some? && item.volume.Some? then [item.volume.value + "(" + item.issue.value + ")"] else []
  }

  /** The parts of the venue line in order; a record without "type" raises
      KeyError, a conference paper keeps only the venue name. */
  function VenueParts(item: Record): Result<seq<string>> {
    match item.kind
    case None => Err(KeyError("type"))
    case Some(t) =>
      if t == ConferenceType then Ok(ContainerPart(item))
      else
        match YearPart(item)
        case Err(f) => Err(f)
        case Ok(year) => Ok(ContainerPart(item) + year + VolumeIssuePart(item))
  }

  /** The venue line: its parts joined by ", ". */
  function VenueText(item: Record): Result<string> {
    match VenueParts(item)
    case Err(f) => Err(f)
    case Ok(parts) => Ok(Join(", ", parts))
  }

  /** `format_venue`: appends the venue name, then for a type other than
      "paper-conference" the year and "volume(issue)", and joins them. */
  method FormatVenue(item: Record) returns (r: Result<string>)
    ensures r == VenueText(item)
    ensures item.kind.None? ==> r == Err(KeyError("type"))
    ensures item.kind == Some(ConferenceType) ==>
      r == Ok(if item.containerTitle.Some? then BoldAbbreviation(item.containerTitle.value) else "")
  {
    var venueParts: seq<string> := [];
    if item.containerTitle.Some? {
      var venue := item.containerTitle.value;
      venue := BoldAbbreviation(venue);
      venueParts := venueParts + [venue];
    }
    if item.kind.None? {
      return Err(KeyError("type"));
    }
    if item.kind.value != ConferenceType {
      if item.issued.Some? && item.issued.value.dateParts.Some? {
        var dateParts := item.issued.value.dateParts.value;
        if |dateParts| == 0 || |dateParts[0]| == 0 {
          return Err(IndexError("date-parts"));
        }
        var year := dateParts[0][0];
        venueParts := venueParts + [IntToString(year)];
      }
      assert YearPart(item).Ok? && venueParts == ContainerPart(item) + YearPart(item).value;
      if item.issue.Some? && item.volume.Some? {
        venueParts := venueParts + [item.volume.value + "(" + item.issue.value + ")"];
      }
      assert venueParts == ContainerPart(item) + YearPart(item).value + VolumeIssuePart(item);
    }
    r := Ok(Join(", ", venueParts));
  }

  /** A dated journal article with volume and issue ends its venue line with
      ", year, volume(issue)", after the venue name when there is one. */
  lemma VenueJournal(item: Record, year: int)
    requires item.kind.Some? && item.kind.value != ConferenceType
    requires item.issued.Some? && item.issued.value.dateParts.Some?
    requires |item.issued.value.dateParts.value| > 0
    requires |item.issued.value.dateParts.value[0]| > 0
    requires item.issued.value.dateParts.value[0][0] == year
    requires item.volume.Some? && item.issue.Some?
    ensures var volumeIssue := item.volume.value + "(" + item.issue.value + ")";
      VenueText(item) == Ok(
        (if item.containerTitle.Some? then BoldAbbreviation(item.containerTitle.value) + ", " else "")
        + IntToString(year) + ", " + volumeIssue)
  {
    var head := ContainerPart(item);
    var y := IntToString(year);
    var vi := item.volume.value + "(" + item.issue.value + ")";
    assert VenueParts(item) == Ok(head + [y] + [vi]);
    if head == [] {
      assert head + [y] + [vi] == [y, vi];
      assert [y, vi][1..] == [vi];
      assert Join(", ", [y, vi]) == y + ", " + Join(", ", [vi]) == y + ", " + vi;
      assert "" + y == y;
      assert VenueText(item) == Ok(Join(", ", [y, vi]));
    } else {
      JoinSnoc(", ", head, y);
      JoinSnoc(", ", head + [y], vi);
    }
  }
}
