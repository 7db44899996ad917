/** The per-article extraction of the PubMed paper fetcher
    (get_papers/fetcher.py): publication-date normalisation, the
    academic / non-academic classification of author affiliations with the
    corresponding-email heuristic, and the loop that turns every readable
    article of a detail response into one summary row. */
module Fetcher {
  import opened Text

  // =====================================================================
  // Data model: an already-parsed PubMed article
  // =====================================================================

  datatype Option<+T> = None | Some(value: T)

  /** The `PubDate` element: each of `Year`, `Month`, `Day` may be absent. */
  datatype PubDate = PubDate(year: Option<string>, month: Option<string>, day: Option<string>)

  /** An `Author` element: optional `ForeName` and `LastName`, and the text of
      each `AffiliationInfo/Affiliation` element (absent when the element has
      no text), in document order. */
  datatype Author = Author(foreName: Option<string>, lastName: Option<string>,
                           affiliations: seq<Option<string>>)

  /** A `PubmedArticle` element as the lookups of the fetcher see it. */
  datatype Article = Article(pmid: Option<string>, title: Option<string>,
                             pubDate: Option<PubDate>, authors: seq<Author>)

  /** One article element of the detail response: either extraction of its
      fields goes through, or it raises, whatever the exception. */
  datatype ArticleElement = Readable(article: Article) | Malformed

  /** What `extract_authors` returns. */
  datatype AuthorsData = AuthorsData(nonAcademicNames: seq<string>,
                                     companyAffiliations: seq<string>,
                                     correspondingEmail: string)

  /** One summary row, as `fetch_details` emits it; `pubmedId` and `title`
      stay absent when the lookup found nothing. */
  datatype Row = Row(pubmedId: Option<string>, title: Option<string>,
                     publicationDate: string, nonAcademicAuthors: string,
                     companyAffiliations: string, correspondingEmail: string)

  /** Python's `text or ""` on a looked-up text that may be absent. */
  function TextOr(text: Option<string>): string
  {
    match text
    case None => ""
    case Some(s) => s
  }

  /** Python truthiness of an optional string: present and non-empty. */
  predicate Truthy(e: Option<string>)
  {
    e.Some? && e.value != ""
  }

  /** Python's `e or default` on an optional string. */
  function OrElse(e: Option<string>, default: string): string
  {
    if Truthy(e) then e.value else default
  }

  // =====================================================================
  // extract_pub_date
  // =====================================================================

  /** The date as composed before stripping: `year-month-day`, absent parts
      contributing the empty string. */
  function DateText(date: PubDate): string
  {
    TextOr(date.year) + "-" + TextOr(date.month) + "-" + TextOr(date.day)
  }

  /** The publication date of an article: "Unknown" without a `PubDate`
      container, otherwise `year-month-day` with every hyphen at either end
      removed: the result is a slice of the composed string with only hyphens
      cut away at the two ends, keeps all non-hyphen characters of the three
      parts and neither begins nor ends with a hyphen. */
  function ExtractPubDate(date: Option<PubDate>): (r: string)
    ensures date.None? ==> r == "Unknown"
    ensures date.Some? ==> r == [] || (r[0] != '-' && r[|r| - 1] != '-')
    ensures date.Some? ==> forall c :: c in r ==> c in DateText(date.value)
    ensures date.Some? ==> forall k :: 0 <= k < |DateText(date.value)| && DateText(date.value)[k] != '-'
                                     ==> DateText(date.value)[k] in r
    ensures date.Some? ==> SliceWithin(r, DateText(date.value), {'-'})
  {
    match date
    case None => "Unknown"
    case Some(d) =>
      StripShape(DateText(d), {'-'});
      StripSlice(DateText(d), {'-'});
      Strip(DateText(d), {'-'})
  }

  /** A year alone gives just the year. */
  lemma PubDateYearOnly(year: string, month: Option<string>, day: Option<string>)
    requires year != [] && year[0] != '-' && year[|year| - 1] != '-'
    requires TextOr(month) == "" && TextOr(day) == ""
    ensures ExtractPubDate(Some(PubDate(Some(year), month, day))) == year
  {
    var s := DateText(PubDate(Some(year), month, day));
    assert s == year + "--";
    assert TrimStart(s, {'-'}) == s;
    TrimEndAppend(year, "--", {'-'});
    StripClean(year, {'-'});
  }

  /** A present container whose parts are all empty gives the empty string,
      not "Unknown". */
  lemma PubDateAllEmpty(date: PubDate)
    requires TextOr(date.year) == "" && TextOr(date.month) == "" && TextOr(date.day) == ""
    ensures ExtractPubDate(Some(date)) == ""
  {
    assert DateText(date) == "--";
    StripAllOf("--", {'-'});
  }

  /** With a year and a day present, an empty month is kept as an interior
      empty part: nothing inside the composed string is removed. */
  lemma PubDateInteriorKept(year: string, month: Option<string>, day: string)
    requires year != [] && year[0] != '-'
    requires day != [] && day[|day| - 1] != '-'
    ensures ExtractPubDate(Some(PubDate(Some(year), month, Some(day))))
            == year + "-" + TextOr(month) + "-" + day
  {
    var s := DateText(PubDate(Some(year), month, Some(day)));
    assert s[0] == year[0] && s[|s| - 1] == day[|day| - 1];
    StripClean(s, {'-'});
  }

  /** The example of a year and a day without a month. */
  lemma PubDateYearAndDay()
    ensures ExtractPubDate(Some(PubDate(Some("2021"), None, Some("05")))) == "2021--05"
  {
    PubDateInteriorKept("2021", None, "05");
  }

  // =====================================================================
  // extract_authors: the specification
  // =====================================================================

  /** An affiliation is academic when its lower-cased text mentions a
      university, a college or an institute. */
  predicate IsAcademic(affiliation: string)
  {
    var lower := Lower(affiliation);
    Contains(lower, "university") || Contains(lower, "college") || Contains(lower, "institute")
  }

  /** The display name of an author: fore name, a space, last name, with the
      surrounding whitespace trimmed. */
  function DisplayName(author: Author): string
  {
    Strip(TextOr(author.foreName) + " " + TextOr(author.lastName), Whitespace)
  }

  /** One (author, affiliation) pairing, in the form the lists receive it. */
  datatype Pairing = Pairing(name: string, affiliation: string)

  /** The pairings of one author, one per affiliation, in document order. */
  function AuthorPairings(author: Author): seq<Pairing>
  {
    seq(|author.affiliations|, j requires 0 <= j < |author.affiliations| =>
      Pairing(DisplayName(author), TextOr(author.affiliations[j])))
  }

  /** All pairings of an article, author by author, in document order. */
  function Pairings(authors: seq<Author>): seq<Pairing>
  {
    if authors == [] then [] else AuthorPairings(authors[0]) + Pairings(authors[1..])
  }

  /** The pairings whose affiliation is not academic, in order, duplicates
      kept. */
  function NonAcademic(ps: seq<Pairing>): seq<Pairing>
  {
    if ps == [] then []
    else (if IsAcademic(ps[0].affiliation) then [] else [ps[0]]) + NonAcademic(ps[1..])
  }

  function Names(ps: seq<Pairing>): seq<string>
  {
    seq(|ps|, k requires 0 <= k < |ps| => ps[k].name)
  }

  function Affiliations(ps: seq<Pairing>): seq<string>
  {
    seq(|ps|, k requires 0 <= k < |ps| => ps[k].affiliation)
  }

  /** The characters stripped from both ends of an email token. */
  const EmailTrim: set<char> := {'.', ';', '(', ')'}

  /** What the email field holds when no affiliation yields an address. */
  const NotFound: string := "Not found"

  /** The first word that contains '@'. */
  function FirstWordWithAt(words: seq<string>): Option<string>
  {
    if words == [] then None
    else if '@' in words[0] then Some(words[0])
    else FirstWordWithAt(words[1..])
  }

  /** The email one affiliation text yields: its first whitespace-delimited
      token containing '@', with `. ; ( )` stripped from both ends. */
  function AffiliationEmail(affiliation: string): Option<string>
  {
    if '@' !in affiliation then None
    else
      match FirstWordWithAt(Words(affiliation))
      case None => None
      case Some(w) => Some(Strip(w, EmailTrim))
  }

  /** The email of the first affiliation, in document order, that yields one. */
  function FirstEmail(affiliations: seq<string>): Option<string>
  {
    if affiliations == [] then None
    else
      match AffiliationEmail(affiliations[0])
      case Some(e) => Some(e)
      case None => FirstEmail(affiliations[1..])
  }

  /** What `extract_authors` computes, stated on the pairings of the article. */
  function AuthorsSpec(authors: seq<Author>): AuthorsData
  {
    var ps := Pairings(authors);
    var picked := NonAcademic(ps);
    AuthorsData(Names(picked), Affiliations(picked), OrElse(FirstEmail(Affiliations(ps)), NotFound))
  }

  // =====================================================================
  // extract_authors: properties of the specification
  // =====================================================================

  /** Classification ignores case: an affiliation and its lower-cased form
      are classified alike. */
  lemma AcademicIgnoresCase(affiliation: string)
    ensures IsAcademic(Lower(affiliation)) == IsAcademic(affiliation)
  {
    LowerIdempotent(affiliation);
  }

  /** "UNIVERSITY of X" is academic. */
  lemma ShoutedUniversityIsAcademic()
    ensures IsAcademic("UNIVERSITY of X")
  {
    assert OccursAt(Lower("UNIVERSITY of X"), "university", 0);
  }

  /** Pairings of consecutive author lists follow each other. */
  lemma {:induction false} PairingsAppend(xs: seq<Author>, ys: seq<Author>)
    ensures Pairings(xs + ys) == Pairings(xs) + Pairings(ys)
    decreases |xs|
  {
    if xs == [] {
      assert xs + ys == ys;
    } else {
      assert (xs + ys)[1..] == xs[1..] + ys;
      PairingsAppend(xs[1..], ys);
    }
  }

  /** Pairings are exactly the (author name, affiliation text) pairs of the
      article. */
  lemma {:induction false} PairingsMembers(authors: seq<Author>, p: Pairing)
    ensures p in Pairings(authors) <==>
            exists i, j :: 0 <= i < |authors| && 0 <= j < |authors[i].affiliations|
                           && p == Pairing(DisplayName(authors[i]), TextOr(authors[i].affiliations[j]))
    decreases |authors|
  {
    if authors != [] {
      PairingsMembers(authors[1..], p);
      if p in Pairings(authors[1..]) {
        var i, j :| 0 <= i < |authors[1..]| && 0 <= j < |authors[1..][i].affiliations|
                    && p == Pairing(DisplayName(authors[1..][i]), TextOr(authors[1..][i].affiliations[j]));
        assert authors[1..][i] == authors[i + 1];
      }
      if exists i, j :: 0 <= i < |authors| && 0 <= j < |authors[i].affiliations|
                        && p == Pairing(DisplayName(authors[i]), TextOr(authors[i].affiliations[j])) {
        var i, j :| 0 <= i < |authors| && 0 <= j < |authors[i].affiliations|
                    && p == Pairing(DisplayName(authors[i]), TextOr(authors[i].affiliations[j]));
        if i == 0 {
          assert AuthorPairings(authors[0])[j] == p;
        } else {
          assert authors[1..][i - 1] == authors[i];
        }
      }
    }
  }

  /** Filtering distributes over concatenation: document order is kept. */
  lemma {:induction false} NonAcademicAppend(xs: seq<Pairing>, ys: seq<Pairing>)
    ensures NonAcademic(xs + ys) == NonAcademic(xs) + NonAcademic(ys)
    decreases |xs|
  {
    if xs == [] {
      assert xs + ys == ys;
    } else {
      assert (xs + ys)[1..] == xs[1..] + ys;
      NonAcademicAppend(xs[1..], ys);
    }
  }

  /** One more pairing adds exactly one entry, itself, when its affiliation is
      not academic, and nothing otherwise. */
  lemma NonAcademicSnoc(ps: seq<Pairing>, p: Pairing)
    ensures NonAcademic(ps + [p]) == NonAcademic(ps) + (if IsAcademic(p.affiliation) then [] else [p])
  {
    NonAcademicAppend(ps, [p]);
    assert [p][1..] == [];
  }

  /** Nothing is de-duplicated: a non-academic pairing appears as often as it
      occurs, an academic one never. */
  lemma {:induction false} NonAcademicCount(ps: seq<Pairing>, p: Pairing)
    ensures multiset(NonAcademic(ps))[p] == if IsAcademic(p.affiliation) then 0 else multiset(ps)[p]
    decreases |ps|
  {
    if ps != [] {
      NonAcademicCount(ps[1..], p);
      assert ps == [ps[0]] + ps[1..];
    }
  }

  /** Entry `k` of the two lists comes from one and the same (author,
      affiliation) pairing of the article: the author's display name and the
      original-case text of a non-academic affiliation of that author. */
  lemma EntriesAligned(authors: seq<Author>, k: nat)
    requires k < |AuthorsSpec(authors).nonAcademicNames|
    ensures k < |AuthorsSpec(authors).companyAffiliations|
    ensures !IsAcademic(AuthorsSpec(authors).companyAffiliations[k])
    ensures exists i, j :: 0 <= i < |authors| && 0 <= j < |authors[i].affiliations|
                           && AuthorsSpec(authors).nonAcademicNames[k] == DisplayName(authors[i])
                           && AuthorsSpec(authors).companyAffiliations[k] == TextOr(authors[i].affiliations[j])
  {
    var ps := Pairings(authors);
    var q := NonAcademic(ps)[k];
    assert q in multiset(NonAcademic(ps));
    NonAcademicCount(ps, q);
    assert q in ps;
    PairingsMembers(authors, q);
  }

  lemma NamesSnoc(ps: seq<Pairing>, p: Pairing)
    ensures Names(ps + [p]) == Names(ps) + [p.name]
    ensures Affiliations(ps + [p]) == Affiliations(ps) + [p.affiliation]
  {
  }

  /** The first word containing '@', when it is at index `i`. */
  lemma {:induction false} FirstWordWithAtIs(words: seq<string>, i: nat)
    requires i < |words| && '@' in words[i]
    requires forall k :: 0 <= k < i ==> '@' !in words[k]
    ensures FirstWordWithAt(words) == Some(words[i])
    decreases i
  {
    if i > 0 {
      FirstWordWithAtIs(words[1..], i - 1);
    }
  }

  /** No word contains '@'. */
  lemma {:induction false} FirstWordWithAtNone(words: seq<string>)
    requires forall k :: 0 <= k < |words| ==> '@' !in words[k]
    ensures FirstWordWithAt(words) == None
    decreases |words|
  {
    if words != [] {
      FirstWordWithAtNone(words[1..]);
    }
  }

  /** What an extracted email looks like: it contains '@' and neither begins
      nor ends with `. ; ( )`. */
  predicate EmailShaped(e: string)
  {
    '@' in e && e[0] !in EmailTrim && e[|e| - 1] !in EmailTrim
  }

  /** A list of words with '@' somewhere has a first word with '@'. */
  lemma {:induction false} FirstWordWithAtFound(words: seq<string>, i: nat)
    requires i < |words| && '@' in words[i]
    ensures FirstWordWithAt(words).Some? && '@' in FirstWordWithAt(words).value
    decreases i
  {
    if '@' !in words[0] {
      FirstWordWithAtFound(words[1..], i - 1);
    }
  }

  /** An affiliation text containing '@' has a token containing '@'. */
  lemma EmailWordFound(affiliation: string)
    requires '@' in affiliation
    ensures FirstWordWithAt(Words(affiliation)).Some?
    ensures '@' in FirstWordWithAt(Words(affiliation)).value
  {
    var words := Words(affiliation);
    WordsKeep(affiliation, '@');
    var i :| 0 <= i < |words| && '@' in words[i];
    FirstWordWithAtFound(words, i);
  }

  /** An affiliation yields an email exactly when it contains '@'; the email
      then contains '@' and neither begins nor ends with `. ; ( )`. */
  lemma AffiliationEmailShape(affiliation: string)
    ensures AffiliationEmail(affiliation).Some? <==> '@' in affiliation
    ensures AffiliationEmail(affiliation).Some? ==> EmailShaped(AffiliationEmail(affiliation).value)
  {
    if '@' in affiliation {
      EmailWordFound(affiliation);
      var word := FirstWordWithAt(Words(affiliation)).value;
      StripShape(word, EmailTrim);
      var k :| 0 <= k < |word| && word[k] == '@';
      assert word[k] !in EmailTrim;
      assert AffiliationEmail(affiliation) == Some(Strip(word, EmailTrim));
    }
  }

  /** First email wins: once an earlier affiliation has yielded an email,
      later ones are never looked at. */
  lemma {:induction false} FirstEmailAppend(xs: seq<string>, ys: seq<string>)
    ensures FirstEmail(xs + ys) == if FirstEmail(xs).Some? then FirstEmail(xs) else FirstEmail(ys)
    decreases |xs|
  {
    if xs == [] {
      assert xs + ys == ys;
    } else {
      assert (xs + ys)[1..] == xs[1..] + ys;
      FirstEmailAppend(xs[1..], ys);
    }
  }

  /** The email is that of the first affiliation containing '@'. */
  lemma {:induction false} FirstEmailIs(affiliations: seq<string>, i: nat)
    requires i < |affiliations| && '@' in affiliations[i]
    requires forall k :: 0 <= k < i ==> '@' !in affiliations[k]
    ensures FirstEmail(affiliations) == AffiliationEmail(affiliations[i])
    decreases i
  {
    if i == 0 {
      AffiliationEmailShape(affiliations[0]);
    } else {
      assert AffiliationEmail(affiliations[0]) == None;
      FirstEmailIs(affiliations[1..], i - 1);
    }
  }

  /** There is no email exactly when no affiliation contains '@'. */
  lemma {:induction false} FirstEmailNoneIff(affiliations: seq<string>)
    ensures FirstEmail(affiliations).None? <==> forall k :: 0 <= k < |affiliations| ==> '@' !in affiliations[k]
    decreases |affiliations|
  {
    if affiliations != [] {
      var rest := affiliations[1..];
      if '@' in affiliations[0] {
        AffiliationEmailShape(affiliations[0]);
      } else {
        assert AffiliationEmail(affiliations[0]) == None;
        FirstEmailNoneIff(rest);
        assert forall k :: 0 < k < |affiliations| ==> affiliations[k] == rest[k - 1];
      }
    }
  }

  /** An email found contains '@' and neither begins nor ends with `. ; ( )`. */
  lemma {:induction false} FirstEmailShaped(affiliations: seq<string>)
    ensures FirstEmail(affiliations).Some? ==> EmailShaped(FirstEmail(affiliations).value)
    decreases |affiliations|
  {
    if affiliations != [] {
      AffiliationEmailShape(affiliations[0]);
      if AffiliationEmail(affiliations[0]).None? {
        FirstEmailShaped(affiliations[1..]);
      }
    }
  }

  /** No affiliation of any author contains '@'. */
  predicate NoAddress(authors: seq<Author>)
  {
    forall i, j :: 0 <= i < |authors| && 0 <= j < |authors[i].affiliations|
                   ==> '@' !in TextOr(authors[i].affiliations[j])
  }

  /** The affiliation texts of the pairings are those of the authors. */
  lemma NoAddressInPairings(authors: seq<Author>)
    ensures NoAddress(authors) <==>
            forall k :: 0 <= k < |Affiliations(Pairings(authors))| ==> '@' !in Affiliations(Pairings(authors))[k]
  {
    var ps := Pairings(authors);
    if NoAddress(authors) {
      forall k | 0 <= k < |ps|
        ensures '@' !in ps[k].affiliation
      {
        assert ps[k] in ps;
        PairingsMembers(authors, ps[k]);
      }
    } else {
      var i, j :| 0 <= i < |authors| && 0 <= j < |authors[i].affiliations|
                  && '@' in TextOr(authors[i].affiliations[j]);
      var p := Pairing(DisplayName(authors[i]), TextOr(authors[i].affiliations[j]));
      PairingsMembers(authors, p);
      var k :| 0 <= k < |ps| && ps[k] == p;
      assert Affiliations(ps)[k] == p.affiliation;
    }
  }

  /** The email field is "Not found" exactly when no affiliation of any author
      contains '@'. */
  lemma EmailNotFoundIff(authors: seq<Author>)
    ensures AuthorsSpec(authors).correspondingEmail == NotFound <==> NoAddress(authors)
  {
    var affs := Affiliations(Pairings(authors));
    FirstEmailNoneIff(affs);
    FirstEmailShaped(affs);
    NoAddressInPairings(authors);
    assert '@' !in NotFound;
  }

  /** An affiliation of three words, the first two without '@', yields the
      third word stripped of `. ; ( )`. */
  lemma EmailOfThirdWord(a: string, b: string, c: string)
    requires a != [] && NoneOf(a, Whitespace) && '@' !in a
    requires b != [] && NoneOf(b, Whitespace) && '@' !in b
    requires c != [] && NoneOf(c, Whitespace) && '@' in c
    ensures AffiliationEmail(a + " " + b + " " + c) == Some(Strip(c, EmailTrim))
  {
    var s := a + " " + b + " " + c;
    WordsThree(a, b, c);
    FirstWordWithAtIs([a, b, c], 2);
    assert s[|s| - |c|..] == c;
  }

  /** The example affiliation "Acme Corp, jane.doe@acme.com." yields
      "jane.doe@acme.com": the trailing period is stripped. The three words
      are parameters fixed by `requires` rather than literals in the
      statement, so that the verifier does not unroll `Words` and `Strip`
      over a literal string. */
  lemma EmailExample(acme: string, corp: string, address: string)
    requires acme == "Acme" && corp == "Corp," && address == "jane.doe@acme.com."
    ensures AffiliationEmail(acme + " " + corp + " " + address) == Some("jane.doe@acme.com")
  {
    assert address[8] == '@';
    EmailOfThirdWord(acme, corp, address);
    ExampleStrip(address);
  }

  lemma ExampleStrip(address: string)
    requires address == "jane.doe@acme.com."
    ensures Strip(address, EmailTrim) == "jane.doe@acme.com"
  {
    assert address == "jane.doe@acme.com" + ".";
    TrimEndAppend("jane.doe@acme.com", ".", EmailTrim);
    StripClean("jane.doe@acme.com", EmailTrim);
  }

  /** An affiliation whose lower-cased text lacks a 'y', an 'l' and an 'n'
      cannot mention a university, a college or an institute. */
  lemma NotAcademicWithout(affiliation: string)
    requires var lower := Lower(affiliation); 'y' !in lower && 'l' !in lower && 'n' !in lower
    ensures !IsAcademic(affiliation)
  {
    var lower := Lower(affiliation);
    NotContainedWithout(lower, "university", 'y');
    NotContainedWithout(lower, "college", 'l');
    NotContainedWithout(lower, "institute", 'n');
  }

  /** Two affiliations of one author that are both non-academic list the
      author twice, once per affiliation, in order. */
  lemma TwoCompanies(author: Author)
    requires |author.affiliations| == 2
    requires !IsAcademic(TextOr(author.affiliations[0])) && !IsAcademic(TextOr(author.affiliations[1]))
    ensures AuthorsSpec([author]).nonAcademicNames == [DisplayName(author), DisplayName(author)]
    ensures AuthorsSpec([author]).companyAffiliations
            == [TextOr(author.affiliations[0]), TextOr(author.affiliations[1])]
  {
    var ps := AuthorPairings(author);
    assert Pairings([author]) == ps by {
      assert [author][1..] == [];
    }
    assert NonAcademic(ps) == ps by {
      assert ps[1..][1..] == [];
      assert NonAcademic(ps[1..]) == [ps[1]];
    }
  }

  /** "MIT" mentions none of the three keywords: it is not academic. */
  lemma MitIsNotAcademic(affiliation: string)
    requires affiliation == "MIT"
    ensures !IsAcademic(affiliation)
  {
    assert Lower(affiliation) == "mit";
    NotAcademicWithout(affiliation);
  }

  /** An author affiliated with "Acme Corp" and "MIT": as "MIT" counts as
      non-academic too, the author is listed twice, once per affiliation. */
  lemma AcmeAndMitBothListed(author: Author)
    requires |author.affiliations| == 2
    requires TextOr(author.affiliations[0]) == "Acme Corp" && TextOr(author.affiliations[1]) == "MIT"
    ensures AuthorsSpec([author]).nonAcademicNames == [DisplayName(author), DisplayName(author)]
    ensures AuthorsSpec([author]).companyAffiliations == ["Acme Corp", "MIT"]
  {
    var acme := TextOr(author.affiliations[0]);
    assert Lower(acme) == "acme corp";
    NotAcademicWithout(acme);
    MitIsNotAcademic(TextOr(author.affiliations[1]));
    TwoCompanies(author);
  }

  /** The display name of an author with both names present. */
  lemma DisplayNameBoth(fore: string, last: string)
    requires fore != [] && fore[0] !in Whitespace
    requires last != [] && last[|last| - 1] !in Whitespace
    ensures DisplayName(Author(Some(fore), Some(last), [])) == fore + " " + last
  {
    var s := fore + " " + last;
    assert s[0] == fore[0] && s[|s| - 1] == last[|last| - 1];
    StripClean(s, Whitespace);
  }

  /** The display name of an author without a fore name is the last name. */
  lemma DisplayNameLastOnly(fore: Option<string>, last: string)
    requires TextOr(fore) == ""
    requires last == [] || (last[0] !in Whitespace && last[|last| - 1] !in Whitespace)
    ensures DisplayName(Author(fore, Some(last), [])) == last
  {
    assert TextOr(fore) + " " + last == " " + last;
    TrimStartPrepend(" ", last, Whitespace);
    StripClean(last, Whitespace);
  }

  // =====================================================================
  // extract_authors: the loop
  // =====================================================================

  /** One more pairing adds its name and its affiliation to the two lists
      when, and only when, its affiliation is not academic. */
  lemma PairingStep(seen: seq<Pairing>, p: Pairing)
    ensures Names(NonAcademic(seen + [p]))
            == Names(NonAcademic(seen)) + (if IsAcademic(p.affiliation) then [] else [p.name])
    ensures Affiliations(NonAcademic(seen + [p]))
            == Affiliations(NonAcademic(seen)) + (if IsAcademic(p.affiliation) then [] else [p.affiliation])
  {
    NonAcademicSnoc(seen, p);
    NamesSnoc(NonAcademic(seen), p);
  }

  /** One more affiliation changes the email only while none has been found,
      and a found email is never empty, so Python's truth test on it is a
      test for presence. */
  lemma EmailStep(seen: seq<Pairing>, p: Pairing)
    ensures FirstEmail(Affiliations(seen + [p]))
            == if FirstEmail(Affiliations(seen)).Some? then FirstEmail(Affiliations(seen))
               else AffiliationEmail(p.affiliation)
    ensures Truthy(FirstEmail(Affiliations(seen))) == FirstEmail(Affiliations(seen)).Some?
  {
    NamesSnoc(seen, p);
    FirstEmailAppend(Affiliations(seen), [p.affiliation]);
    assert [p.affiliation][1..] == [];
    FirstEmailShaped(Affiliations(seen));
  }

  /** Pairing affiliation `j` of an author extends the pairings made so far
      with the author's first `j` affiliations to the first `j + 1`. */
  lemma AuthorPairingsStep(before: seq<Pairing>, author: Author, j: nat)
    requires j < |author.affiliations|
    ensures before + AuthorPairings(author)[..j] + [Pairing(DisplayName(author), TextOr(author.affiliations[j]))]
            == before + AuthorPairings(author)[..j + 1]
  {
    var p := Pairing(DisplayName(author), TextOr(author.affiliations[j]));
    assert AuthorPairings(author)[..j + 1] == AuthorPairings(author)[..j] + [p];
  }

  /** The pairings of the first `i + 1` authors. */
  lemma PairingsSnoc(authors: seq<Author>, i: nat)
    requires i < |authors|
    ensures Pairings(authors[..i + 1]) == Pairings(authors[..i]) + AuthorPairings(authors[i])
  {
    assert authors[..i + 1] == authors[..i] + [authors[i]];
    PairingsAppend(authors[..i], [authors[i]]);
    assert [authors[i]][1..] == [];
  }

  /** The email of an affiliation known to contain '@': the first token with
      '@' in it, stripped of `. ; ( )` at both ends. */
  method TokenEmail(affText: string) returns (email: Option<string>)
    requires '@' in affText
    ensures email == AffiliationEmail(affText)
  {
    var parts := Words(affText);
    email := None;
    for k := 0 to |parts|
      invariant email == None
      invariant forall m :: 0 <= m < k ==> '@' !in parts[m]
    {
      var word := parts[k];
      if '@' in word {
        FirstWordWithAtIs(parts, k);
        email := Some(Strip(word, EmailTrim));
        break;
      }
    }
    if email == None {
      FirstWordWithAtNone(parts);
    }
  }

  /** Walks the authors and their affiliations in document order, appending
      each non-academic pairing to both lists in the same step and taking the
      email from the first affiliation that holds one. */
  method ExtractAuthors(authors: seq<Author>) returns (data: AuthorsData)
    ensures data == AuthorsSpec(authors)
    ensures |data.nonAcademicNames| == |data.companyAffiliations|
  {
    var nonAcademic: seq<string> := [];
    var companies: seq<string> := [];
    var email: Option<string> := None;
    ghost var seen: seq<Pairing> := [];

    for i := 0 to |authors|
      invariant seen == Pairings(authors[..i])
      invariant nonAcademic == Names(NonAcademic(seen))
      invariant companies == Affiliations(NonAcademic(seen))
      invariant email == FirstEmail(Affiliations(seen))
    {
      var author := authors[i];
      var name := Strip(TextOr(author.foreName) + " " + TextOr(author.lastName), Whitespace);
      ghost var before := seen;

      for j := 0 to |author.affiliations|
        invariant seen == before + AuthorPairings(author)[..j]
        invariant nonAcademic == Names(NonAcademic(seen))
        invariant companies == Affiliations(NonAcademic(seen))
        invariant email == FirstEmail(Affiliations(seen))
      {
        var affText := TextOr(author.affiliations[j]);
        var affLower := Lower(affText);
        ghost var p := Pairing(name, affText);
        PairingStep(seen, p);
        EmailStep(seen, p);
        AuthorPairingsStep(before, author, j);

        if !Contains(affLower, "university") && !Contains(affLower, "college")
           && !Contains(affLower, "institute") {
          nonAcademic := nonAcademic + [name];
          companies := companies + [affText];
        }

        if !Truthy(email) && '@' in affText {
          email := TokenEmail(affText);
        }

        seen := seen + [p];
      }

      assert AuthorPairings(author)[..|author.affiliations|] == AuthorPairings(author);
      PairingsSnoc(authors, i);
    }

    assert authors[..|authors|] == authors;
    data := AuthorsData(nonAcademic, companies, OrElse(email, NotFound));
  }

  // =====================================================================
  // fetch_details: the per-article loop
  // =====================================================================

  /** The separator of the two list fields of a row. */
  const ListSeparator: string := "; "

  /** The row of an article whose extraction goes through. */
  function RowOf(article: Article): Row
  {
    var data := AuthorsSpec(article.authors);
    Row(article.pmid, article.title, ExtractPubDate(article.pubDate),
        Join(data.nonAcademicNames, ListSeparator),
        Join(data.companyAffiliations, ListSeparator),
        data.correspondingEmail)
  }

  /** The rows of the readable articles, in article order. */
  function Rows(elements: seq<ArticleElement>): seq<Row>
  {
    if elements == [] then []
    else
      match elements[0]
      case Malformed => Rows(elements[1..])
      case Readable(a) => [RowOf(a)] + Rows(elements[1..])
  }

  /** The number of readable articles. */
  function ReadableCount(elements: seq<ArticleElement>): nat
  {
    if elements == [] then 0
    else (if elements[0].Readable? then 1 else 0) + ReadableCount(elements[1..])
  }

  /** Rows of consecutive stretches of articles follow each other. */
  lemma {:induction false} RowsAppend(xs: seq<ArticleElement>, ys: seq<ArticleElement>)
    ensures Rows(xs + ys) == Rows(xs) + Rows(ys)
    decreases |xs|
  {
    if xs == [] {
      assert xs + ys == ys;
    } else {
      assert (xs + ys)[1..] == xs[1..] + ys;
      RowsAppend(xs[1..], ys);
    }
  }

  /** A malformed article is dropped and does not stop the articles after it. */
  lemma MalformedSkipped(xs: seq<ArticleElement>, ys: seq<ArticleElement>)
    ensures Rows(xs + [Malformed] + ys) == Rows(xs) + Rows(ys)
  {
    RowsAppend(xs + [Malformed], ys);
    RowsAppend(xs, [Malformed]);
    assert [Malformed][1..] == [];
  }

  /** One row per readable article, so never more rows than articles. */
  lemma {:induction false} RowsCount(elements: seq<ArticleElement>)
    ensures |Rows(elements)| == ReadableCount(elements) <= |elements|
    decreases |elements|
  {
    if elements != [] {
      RowsCount(elements[1..]);
    }
  }

  /** The row of the readable article at index `i` sits right after the
      rows of the articles before it: every readable article is reported, in
      article order. */
  lemma RowAt(elements: seq<ArticleElement>, i: nat)
    requires i < |elements| && elements[i].Readable?
    ensures |Rows(elements[..i])| < |Rows(elements)|
    ensures Rows(elements)[|Rows(elements[..i])|] == RowOf(elements[i].article)
  {
    assert elements == elements[..i] + ([elements[i]] + elements[i + 1..]);
    RowsAppend(elements[..i], [elements[i]] + elements[i + 1..]);
    assert ([elements[i]] + elements[i + 1..])[1..] == elements[i + 1..];
  }

  /** An article whose affiliations are all academic and hold no address
      gives a row with empty author fields and "Not found". */
  lemma AcademicOnlyRow(article: Article)
    requires forall i, j :: 0 <= i < |article.authors| && 0 <= j < |article.authors[i].affiliations|
                            ==> var text := TextOr(article.authors[i].affiliations[j]);
                                IsAcademic(text) && '@' !in text
    ensures RowOf(article).nonAcademicAuthors == ""
    ensures RowOf(article).companyAffiliations == ""
    ensures RowOf(article).correspondingEmail == NotFound
  {
    var ps := Pairings(article.authors);
    EmailNotFoundIff(article.authors);
    forall k | 0 <= k < |ps|
      ensures IsAcademic(ps[k].affiliation)
    {
      assert ps[k] in ps;
      PairingsMembers(article.authors, ps[k]);
    }
    AllAcademic(ps);
  }

  lemma {:induction false} AllAcademic(ps: seq<Pairing>)
    requires forall k :: 0 <= k < |ps| ==> IsAcademic(ps[k].affiliation)
    ensures NonAcademic(ps) == []
    decreases |ps|
  {
    if ps != [] {
      AllAcademic(ps[1..]);
    }
  }

  /** The loop of `fetch_details`: each readable article becomes a row, in
      order; an article whose extraction fails is skipped and the loop goes
      on with the next. */
  method FetchDetails(elements: seq<ArticleElement>) returns (results: seq<Row>)
    ensures results == Rows(elements)
    ensures |results| <= |elements|
  {
    results := [];
    for i := 0 to |elements|
      invariant results == Rows(elements[..i])
    {
      assert elements[..i + 1] == elements[..i] + [elements[i]];
      RowsAppend(elements[..i], [elements[i]]);
      assert [elements[i]][1..] == [];
      match elements[i]
      case Malformed =>
        continue;
      case Readable(article) =>
        var pubDate := ExtractPubDate(article.pubDate);
        var data := ExtractAuthors(article.authors);
        results := results + [Row(article.pmid, article.title, pubDate,
                                  Join(data.nonAcademicNames, ListSeparator),
                                  Join(data.companyAffiliations, ListSeparator),
                                  data.correspondingEmail)];
    }
    assert elements[..|elements|] == elements;
    RowsCount(elements);
  }
}
