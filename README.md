# PubMed paper fetcher: per-article extraction, modelled in Dafny

The fetcher asks PubMed for the articles that match a query. It then turns
every `PubmedArticle` element of the detail response into one flat summary
row with these fields:

- the PubMed identifier and the title;
- a normalised publication date;
- the display names of the non-academic authors;
- their company affiliations;
- a best-guess corresponding-author email.

This project models the part of `get_papers/fetcher.py` that runs after the
response has been parsed. The parsed article is a datatype: every XML lookup
becomes an optional field.

- `text.dfy` (module `Text`) defines the Python string built-ins the fetcher
  relies on as total functions over `string`:
  - `sub in s` (`Contains`)
  - ASCII `lower()` (`Lower`)
  - `strip(chars)` (`Strip`, built from `TrimStart` and `TrimEnd`)
  - whitespace `split()` (`Words`)
  - `sep.join(xs)` (`Join`)
- `fetcher.dfy` (module `Fetcher`) holds the data model and the three
  operations:
  - **`extract_pub_date`** is pure, so it is the function `ExtractPubDate`.
  - **`extract_authors`** is the method `ExtractAuthors`. It has the
    source's nested loops: one over authors, one over each author's
    affiliations. Inside them it appends in lockstep to the two lists and
    sets `email` only while it is still falsy. The inner `break` loop over
    the tokens of an affiliation is the method `TokenEmail`.
    `ExtractAuthors` is proved equal to the specification function
    `AuthorsSpec`, which is stated on the sequence of (author display name,
    affiliation text) pairings in document order:
    - `NonAcademic` keeps the pairings whose affiliation mentions no
      keyword;
    - `FirstEmail` takes the email of the first affiliation that yields
      one.
  - **The loop of `fetch_details`** is the method `FetchDetails`. It is
    proved equal to `Rows`, which drops every article whose extraction fails
    and keeps the rest in order.

The lemmas state what the fetcher promises about these specification
functions:

- both lists grow in lockstep;
- classification ignores case and keeps duplicates in document order;
- the first email wins;
- an email always contains `@` and carries no `. ; ( )` at either end;
- "Not found" appears exactly when no affiliation holds an `@`;
- the date rules;
- rows keep article order, and there are never more rows than articles.

The keyword test does not recognise every academic name. "MIT" contains
none of "university", "college" or "institute", so an author affiliated with
"Acme Corp" and "MIT" is listed twice, once per affiliation.
`Fetcher.MitIsNotAcademic` and `Fetcher.AcmeAndMitBothListed` state this.

## Model

| member | source | states |
|---|---|---|
| Text.Contains | pubmed-paper-fetcher/get_papers/fetcher.py:84 | `sub in s` holds exactly when `sub` occurs at some index of `s` |
| Text.NotContainedWithout | pubmed-paper-fetcher/get_papers/fetcher.py:84 | a text lacking one of the characters of a keyword does not contain that keyword |
| Text.Strip | pubmed-paper-fetcher/get_papers/fetcher.py:70 | defines `s.strip(chars)` as `rstrip` after `lstrip`; what it keeps and drops is stated by Text.StripShape |
| Text.Words | pubmed-paper-fetcher/get_papers/fetcher.py:89 | defines whitespace `split()`: skip whitespace, take the longest run without whitespace as a token, repeat; Text.WordsAreTokens and Text.WordsConcat state its result |
| Text.Lower | pubmed-paper-fetcher/get_papers/fetcher.py:82 | lower-casing keeps the length, folds each position on its own and leaves no capital letter |
| Text.LowerIdempotent | pubmed-paper-fetcher/get_papers/fetcher.py:82 | lower-casing an already lower-cased text changes nothing |
| Text.TrimStart | pubmed-paper-fetcher/get_papers/fetcher.py:70 | `lstrip` returns a suffix of its input that is empty or does not begin with a stripped character |
| Text.TrimStartDropped | pubmed-paper-fetcher/get_papers/fetcher.py:70 | every character `lstrip` drops is one of the stripped characters |
| Text.TrimEnd | pubmed-paper-fetcher/get_papers/fetcher.py:70 | `rstrip` returns a prefix of its input that is empty or does not end with a stripped character |
| Text.TrimEndDropped | pubmed-paper-fetcher/get_papers/fetcher.py:70 | every character `rstrip` drops is one of the stripped characters |
| Text.StripShape | pubmed-paper-fetcher/get_papers/fetcher.py:70 | `strip(chars)` leaves neither end in `chars`, contains only characters of the input and omits none of its characters outside `chars` |
| Text.StripSlice | pubmed-paper-fetcher/get_papers/fetcher.py:70 | the exact rule of `strip(chars)`: the result is one contiguous slice of the input and every character cut away lies in `chars`; with Text.StripShape this fixes the result |
| Text.StripClean | pubmed-paper-fetcher/get_papers/fetcher.py:78 | a string whose two ends are already clean is returned unchanged |
| Text.TrimEndAppend | pubmed-paper-fetcher/get_papers/fetcher.py:70 | stripped characters appended at the end vanish under `rstrip` |
| Text.TrimStartPrepend | pubmed-paper-fetcher/get_papers/fetcher.py:78 | stripped characters put in front vanish under `lstrip` |
| Text.StripAllOf | pubmed-paper-fetcher/get_papers/fetcher.py:70 | a string made only of stripped characters strips to the empty string |
| Text.SpanOutside | pubmed-paper-fetcher/get_papers/fetcher.py:89 | the length of the leading run of non-whitespace is within the string and is followed by whitespace or the end |
| Text.SpanOutsideClean | pubmed-paper-fetcher/get_papers/fetcher.py:89 | that leading run holds no whitespace |
| Text.WordsAreTokens | pubmed-paper-fetcher/get_papers/fetcher.py:89 | `split()` yields only non-empty tokens without whitespace |
| Text.WordsConcat | pubmed-paper-fetcher/get_papers/fetcher.py:89 | the tokens of `split()`, put back together, are the text with all its whitespace removed, so no non-whitespace character is lost or reordered |
| Text.WithoutAppend | pubmed-paper-fetcher/get_papers/fetcher.py:89 | removing whitespace distributes over concatenation |
| Text.WithoutNone | pubmed-paper-fetcher/get_papers/fetcher.py:89 | removing whitespace from a text without any leaves it unchanged |
| Text.WithoutKeeps | pubmed-paper-fetcher/get_papers/fetcher.py:89 | every non-whitespace character of the text survives the removal |
| Text.WordsFront | pubmed-paper-fetcher/get_papers/fetcher.py:89 | a token followed by whitespace is the first token of `split()` |
| Text.SpanOutsideWord | pubmed-paper-fetcher/get_papers/fetcher.py:89 | the leading run of a token followed by whitespace is exactly the token |
| Text.WordsOne | pubmed-paper-fetcher/get_papers/fetcher.py:89 | a single token splits into itself |
| Text.WordsCons | pubmed-paper-fetcher/get_papers/fetcher.py:89 | a token, a space and a rest split into the token followed by the tokens of the rest |
| Text.WordsThree | pubmed-paper-fetcher/get_papers/fetcher.py:89 | three tokens separated by single spaces split into exactly those three |
| Text.WordsKeep | pubmed-paper-fetcher/get_papers/fetcher.py:89 | a non-whitespace character of the text lies in one of its tokens |
| Text.ConcatMember | pubmed-paper-fetcher/get_papers/fetcher.py:89 | a character of a concatenation lies in one of the concatenated words |
| Text.Join | pubmed-paper-fetcher/get_papers/fetcher.py:53-54 | `sep.join(xs)`: for a non-empty list, the length is the items' summed length plus one separator between each pair of neighbours; content and order are stated by Text.JoinSnoc |
| Text.JoinSnoc | pubmed-paper-fetcher/get_papers/fetcher.py:53-54 | joining one more item appends the separator and the item |
| Text.JoinEmpty | pubmed-paper-fetcher/get_papers/fetcher.py:53-54 | with a non-empty separator, the joined field is empty exactly when the list is empty or holds a single empty string |
| Fetcher.TextOr | pubmed-paper-fetcher/get_papers/fetcher.py:81 | defines `text or ""` on a looked-up text: the text when present, "" when absent |
| Fetcher.Truthy | pubmed-paper-fetcher/get_papers/fetcher.py:88 | defines Python truthiness of an optional string (present and non-empty), used for `not email` |
| Fetcher.OrElse | pubmed-paper-fetcher/get_papers/fetcher.py:98 | defines `e or default` on an optional string: the string when it is truthy, the default otherwise; Fetcher.EmailStep and Fetcher.EmailNotFoundIff state what this gives for the email |
| Fetcher.ExtractPubDate | pubmed-paper-fetcher/get_papers/fetcher.py:63-70 | "Unknown" without a date container; otherwise `year-month-day` with absent parts empty and hyphens stripped: the result is a contiguous slice of the composed string with only hyphens cut away, neither begins nor ends with '-', and keeps every non-hyphen character |
| Fetcher.PubDateYearOnly | pubmed-paper-fetcher/get_papers/fetcher.py:67-70 | a year alone gives just the year |
| Fetcher.PubDateAllEmpty | pubmed-paper-fetcher/get_papers/fetcher.py:64-70 | a present container whose parts are all empty gives "", not "Unknown" |
| Fetcher.PubDateInteriorKept | pubmed-paper-fetcher/get_papers/fetcher.py:67-70 | with a year and a day present, an empty month stays as an empty interior part |
| Fetcher.PubDateYearAndDay | pubmed-paper-fetcher/get_papers/fetcher.py:67-70 | year "2021" and day "05" without a month give "2021--05" |
| Fetcher.IsAcademic | pubmed-paper-fetcher/get_papers/fetcher.py:82-84 | defines the keyword test: the lower-cased affiliation contains "university", "college" or "institute" |
| Fetcher.DisplayName | pubmed-paper-fetcher/get_papers/fetcher.py:78 | defines the display name: fore name, a space, last name (each "" when absent), surrounding whitespace stripped |
| Fetcher.AffiliationEmail | pubmed-paper-fetcher/get_papers/fetcher.py:88-93 | defines the email one affiliation yields: none without '@', otherwise its first `split()` token containing '@', stripped of `. ; ( )` |
| Fetcher.FirstEmail | pubmed-paper-fetcher/get_papers/fetcher.py:88-93 | defines the email of an article: that of the first affiliation, in document order, that yields one |
| Fetcher.AuthorsSpec | pubmed-paper-fetcher/get_papers/fetcher.py:72-99 | defines what `extract_authors` returns: the names and affiliation texts of the non-academic pairings in document order, and the first email or "Not found" |
| Fetcher.AcademicIgnoresCase | pubmed-paper-fetcher/get_papers/fetcher.py:82-84 | an affiliation and its lower-cased form are classified alike |
| Fetcher.ShoutedUniversityIsAcademic | pubmed-paper-fetcher/get_papers/fetcher.py:82-84 | "UNIVERSITY of X" is academic although written in capitals |
| Fetcher.NotAcademicWithout | pubmed-paper-fetcher/get_papers/fetcher.py:84 | an affiliation lacking a 'y', an 'l' and an 'n' (in any case) is not academic |
| Fetcher.MitIsNotAcademic | pubmed-paper-fetcher/get_papers/fetcher.py:84 | "MIT" mentions no keyword and counts as non-academic |
| Fetcher.AcmeAndMitBothListed | pubmed-paper-fetcher/get_papers/fetcher.py:77-86 | an author affiliated with "Acme Corp" and "MIT" is listed twice, with both texts, in order |
| Fetcher.TwoCompanies | pubmed-paper-fetcher/get_papers/fetcher.py:77-86 | one author with two non-academic affiliations appears twice in the names, paired with both texts in order: no de-duplication |
| Fetcher.PairingsAppend | pubmed-paper-fetcher/get_papers/fetcher.py:77-80 | the pairings of consecutive author lists follow each other: document order |
| Fetcher.PairingsMembers | pubmed-paper-fetcher/get_papers/fetcher.py:77-81 | the pairings are exactly the (display name, affiliation text or "") pairs of the authors |
| Fetcher.NonAcademicAppend | pubmed-paper-fetcher/get_papers/fetcher.py:77-86 | the selection of non-academic pairings keeps document order across concatenation |
| Fetcher.NonAcademicSnoc | pubmed-paper-fetcher/get_papers/fetcher.py:84-86 | one more pairing is selected exactly when its affiliation is not academic |
| Fetcher.NonAcademicCount | pubmed-paper-fetcher/get_papers/fetcher.py:84-86 | a non-academic pairing is selected as often as it occurs and an academic one never: nothing is de-duplicated |
| Fetcher.EntriesAligned | pubmed-paper-fetcher/get_papers/fetcher.py:78-86 | entry k of both lists comes from the same author and one of that author's non-academic affiliations: the display name beside the original-case text |
| Fetcher.NamesSnoc | pubmed-paper-fetcher/get_papers/fetcher.py:85-86 | one more pairing adds its name and its affiliation to the end of the two projections |
| Fetcher.FirstWordWithAtIs | pubmed-paper-fetcher/get_papers/fetcher.py:90-93 | the token search stops at the first token containing '@' |
| Fetcher.FirstWordWithAtNone | pubmed-paper-fetcher/get_papers/fetcher.py:90-93 | without a token containing '@' the search finds nothing |
| Fetcher.FirstWordWithAtFound | pubmed-paper-fetcher/get_papers/fetcher.py:90-93 | some token with '@' means the search finds a token, and it contains '@' |
| Fetcher.EmailWordFound | pubmed-paper-fetcher/get_papers/fetcher.py:88-91 | an affiliation containing '@' has a whitespace-delimited token containing '@' |
| Fetcher.AffiliationEmailShape | pubmed-paper-fetcher/get_papers/fetcher.py:88-92 | an affiliation yields an email exactly when it contains '@'; the email contains '@' and neither begins nor ends with `. ; ( )` |
| Fetcher.FirstEmailAppend | pubmed-paper-fetcher/get_papers/fetcher.py:88 | first email wins: once earlier affiliations yield an email, later ones are not consulted |
| Fetcher.FirstEmailIs | pubmed-paper-fetcher/get_papers/fetcher.py:88-93 | the email is the one from the first affiliation, in document order, that contains '@' |
| Fetcher.FirstEmailNoneIff | pubmed-paper-fetcher/get_papers/fetcher.py:88-93 | no email is found exactly when no affiliation contains '@' |
| Fetcher.FirstEmailShaped | pubmed-paper-fetcher/get_papers/fetcher.py:88-92 | a found email contains '@' and neither begins nor ends with `. ; ( )` |
| Fetcher.NoAddressInPairings | pubmed-paper-fetcher/get_papers/fetcher.py:77-81 | no affiliation text of any author contains '@' exactly when none of the paired affiliation texts does |
| Fetcher.EmailNotFoundIff | pubmed-paper-fetcher/get_papers/fetcher.py:88-98 | the email field is "Not found" exactly when no affiliation text of any author contains '@' |
| Fetcher.EmailOfThirdWord | pubmed-paper-fetcher/get_papers/fetcher.py:89-92 | with '@' only in the third of three tokens, the email is that token stripped of `. ; ( )` |
| Fetcher.EmailExample | pubmed-paper-fetcher/get_papers/fetcher.py:89-92 | "Acme Corp, jane.doe@acme.com." yields "jane.doe@acme.com" |
| Fetcher.ExampleStrip | pubmed-paper-fetcher/get_papers/fetcher.py:92 | stripping `. ; ( )` removes the trailing period of "jane.doe@acme.com." |
| Fetcher.DisplayNameBoth | pubmed-paper-fetcher/get_papers/fetcher.py:78 | with both names present and clean at the outer ends, the display name is fore name, space, last name |
| Fetcher.DisplayNameLastOnly | pubmed-paper-fetcher/get_papers/fetcher.py:78 | without a fore name the display name is the last name, the leading space trimmed |
| Fetcher.PairingStep | pubmed-paper-fetcher/get_papers/fetcher.py:84-86 | one more pairing appends its name and its affiliation text to the two lists together, exactly when the affiliation is not academic |
| Fetcher.EmailStep | pubmed-paper-fetcher/get_papers/fetcher.py:88-93 | one more affiliation sets the email only while none is set, and Python's truth test on the email is a test for presence since a found email is never empty |
| Fetcher.AuthorPairingsStep | pubmed-paper-fetcher/get_papers/fetcher.py:80-81 | handling affiliation j of an author extends the pairings so far by exactly that pairing |
| Fetcher.PairingsSnoc | pubmed-paper-fetcher/get_papers/fetcher.py:77-80 | handling one more author appends exactly that author's pairings |
| Fetcher.TokenEmail | pubmed-paper-fetcher/get_papers/fetcher.py:89-93 | the `break` loop over `split()` returns the email the affiliation yields |
| Fetcher.ExtractAuthors | pubmed-paper-fetcher/get_papers/fetcher.py:72-99 | the nested loops return exactly the specification: non-academic names and their affiliation texts in document order, in lists of equal length, and the first email or "Not found" |
| Fetcher.RowOf | pubmed-paper-fetcher/get_papers/fetcher.py:49-56 | defines the row of an article whose extraction goes through: identifier, title, normalised date, the two lists joined with "; ", the email |
| Fetcher.Rows | pubmed-paper-fetcher/get_papers/fetcher.py:42-61 | defines the result of the loop: the rows of the readable articles in order, a malformed article contributing none |
| Fetcher.RowsAppend | pubmed-paper-fetcher/get_papers/fetcher.py:42-59 | the rows of consecutive stretches of articles follow each other: article order |
| Fetcher.MalformedSkipped | pubmed-paper-fetcher/get_papers/fetcher.py:57-59 | an article whose extraction fails is dropped, and the articles after it still give their rows |
| Fetcher.RowsCount | pubmed-paper-fetcher/get_papers/fetcher.py:42-61 | there is one row per readable article, never more rows than articles |
| Fetcher.RowAt | pubmed-paper-fetcher/get_papers/fetcher.py:42-56 | the row of each readable article sits right after the rows of the articles before it |
| Fetcher.AcademicOnlyRow | pubmed-paper-fetcher/get_papers/fetcher.py:49-56 | an article with only academic affiliations and no '@' gives empty author fields and "Not found" |
| Fetcher.AllAcademic | pubmed-paper-fetcher/get_papers/fetcher.py:84-86 | pairings whose affiliations are all academic select nothing |
| Fetcher.FetchDetails | pubmed-paper-fetcher/get_papers/fetcher.py:40-61 | the loop returns exactly the rows of the readable articles in order, the two lists joined with "; ", never more rows than articles |

## Left out

- `search_pubmed` and the request half of `fetch_details`
  (`fetcher.py:15-37`) are left out: HTTP requests and JSON decoding are I/O.
- `ET.fromstring` and the `find`/`findall`/`findtext` path lookups
  (`fetcher.py:39`, 42-45, 64, 77-79) belong to a foreign XML library. A parsed
  article is the datatype `Article`, each lookup an optional field, each
  `findall` a sequence in document order. How `.//` descends through nested
  elements is not modelled.
- Logging (`fetcher.py:13`, 58) is left out because it has no effect on the
  result.
- `cli.py` is not part of this model: it is argument parsing, logging set-up
  and CSV rendering.
- The concrete exceptions that can reach the `except` at `fetcher.py:57` are
  not modelled. An article whose extraction raises is the value `Malformed`,
  whatever the cause.
- `Text.Lower` folds only the ASCII letters A-Z. Python's `str.lower` is full
  Unicode.
- `Text.Words` and `Text.Strip`, as used for `split()` and `strip()`, treat
  only the ASCII whitespace as whitespace: space, tab, line feed, carriage
  return, vertical tab, form feed and `\x1c`-`\x1f`. Python's set is larger:
  `\x85`, `\xa0` and other Unicode spaces.
- Identifiers and titles stay `Option<string>` in a row, because
  `findtext` returns `None` when the element is missing. The rows do not
  turn an absent value into a string.
