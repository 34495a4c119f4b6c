# Research homepage: publication cards, author lines, profile links and the Scholar scraper

This project models the data derivations of a static research homepage and of
the script that refreshes its publication list, and proves properties of them.

- The page (`main.js`) reads `config.json` and `publications.json`. From
  `config.json` it derives the displayed name, the document title, the
  affiliation line, the ordered online links and whether the internship note
  and the CV link are shown. From `publications.json` it sorts the entries
  newest first, stably, in place, and builds one card per entry: the title, a
  meta line (formatted authors · venue · year), an optional figure looked up by
  title, the link chips (PDF, Code, DOI, Scholar) and the URL the whole card
  opens.
- The author line is split on a white-space-bounded, case-insensitive "and".
  Each part is trimmed, blank parts are dropped, and every case-insensitive
  occurrence of one of four spellings of the site owner's name is wrapped in
  `<strong>…</strong>`. The parts are joined with ", ".
- The scraper (`scripts/update_publications.py`) examines the first
  `max_papers` Scholar references. It drops blacklisted ones and maps each
  remaining bib record to an output record: stripped title, venue fallback
  chain, parsed year, summary cut to 350 characters, and a fixed links shape.

Modules, one per file:

| file | module | contents |
|---|---|---|
| wrappers.dfy | Wrappers | `Option` |
| seqs.dfy | Seqs | `map` over a list, and concatenating zero-or-more outputs per element |
| text.dfy | Text | white space (JavaScript and Python sets), lower-casing, trim, join, first non-empty, substring test |
| numbers.dfy | Numbers | decimal text of an integer and its parser, with the round trip |
| records.dfy | Records | the publication record shared by the scraper and the page |
| authors.dfy | Authors | `escapeRegExp`, `highlightMyName`, `formatAuthors` |
| picks.dfy | Picks | lists pushed one labelled link per truthy field (chips, online links) |
| publications.dfy | Publications | figure lookup, newest-first sort, cards, publication loader |
| profile.dfy | Profile | the `loadConfig` derivations |
| scholar_update.dfy | ScholarUpdate | `should_skip_paper` and the loop of `fetch_publications` |
| authors_example.dfy | AuthorsExample | one worked `formatAuthors` call |
| end_to_end.dfy | EndToEnd | cards of scraped records |

Modelling conventions:

- A JSON string field that is missing, `null` or empty is `""`, so JavaScript
  and Python truthiness of a string is `s != ""`. A missing year is `None`.
- Regular-expression matching of the name variants is literal,
  case-insensitive substring matching. `Authors.NamesAreLiteral` proves that
  escaping leaves every variant unchanged, so this is all the regular
  expression does.
- Case-insensitivity is `Text.Lower`: ASCII letters and the Latin-1 letters
  U+00C0–U+00DE except U+00D7.
- JavaScript `\s` and `trim` use `Text.JsSpace`. Python `str.strip()` uses
  `Text.PySpace`.
- The page's in-place `pubs.sort` is modelled as an insertion sort on an `array`. It is
  proved to leave the array equal to a functional stable insertion sort,
  `Publications.SortByYear`. Any newest-first order that keeps equal-year
  entries in input order is that sort (`Publications.SortedUnique`), so this
  is the order any stable sort with the page's comparator produces.
- The scraper's loop takes already-filled Scholar records as input. The
  `scholarly` calls are outside the model.

## Model

| member | source | states |
|---|---|---|
| Text.Lower | main.js:17 | an upper-case letter becomes the letter 32 code points above it ('A' to 'a'), every other character is unchanged, and the result is never upper-case |
| Text.LowerStrIdempotent | main.js:17 | lower-casing an already lower-cased string changes nothing |
| Text.LowerStrAppend | main.js:17 | lower-casing works character by character, so it distributes over concatenation |
| Text.Trim | main.js:17 | the result is empty or starts and ends with a non-space; it is empty exactly when the input is all white space; it only holds input characters |
| Text.TrimPadded | main.js:17 | trimming ignores white space added on either side |
| Text.Join | main.js:67 | an empty list joins to "", a single piece joins to itself, and a non-empty first piece gives a non-empty result |
| Text.JoinSnoc | main.js:359 | a join ends with its last piece, after the separator when other pieces precede it |
| Text.FirstNonEmpty | main.js:404-405 | the result is "" exactly when every candidate is empty, otherwise it is the first non-empty candidate |
| Text.Contains | scripts/update_publications.py:22 | true exactly when the pattern occurs at some position of the text |
| Numbers.ShowInt | main.js:356 | the decimal text is a '-' exactly for negative numbers, then one or more ASCII digits with no leading zero, as `String(n)` writes a safe integer |
| Numbers.ParseInt | scripts/update_publications.py:45 | a text parses exactly when it is an optional `+` or `-` followed by at least one ASCII digit, and the value is the digits' decimal value, negated after `-` |
| Numbers.ParseShowInt | scripts/update_publications.py:45 | parsing the decimal text of any integer gives that integer back |
| Authors.EscapeRegExp | main.js:31-33 | escaping never shortens, and leaves the text unchanged exactly when it has no special character |
| Authors.EscapeRegExpRoundTrip | main.js:31-33 | removing the inserted backslashes gives the original text back |
| Authors.NamesAreLiteral | main.js:38 | escaping leaves every name variant unchanged, so each pattern matches its literal text |
| Authors.FindFrom | main.js:38-39 | returns the leftmost case-insensitive match at or after the start position, and none when there is no match there |
| Authors.EmphasizeAll | main.js:38-42 | the global replace never shortens the text; it lengthens it when the name occurs, in any case, and leaves it unchanged exactly when the name does not occur |
| Authors.RemoveTagsEmphasizeAll | main.js:39-42 | removing the `<strong>`/`</strong>` tags from the wrapped text gives back the input, tag-stripped, with the matches in their original casing |
| Authors.EmphasizeAllWrapsEvery | main.js:38-42 | after one global replace, every case-insensitive occurrence of the name in the result sits between an opening `<strong>` right before it and a closing `</strong>` right after it: all matches are wrapped, not only the first |
| Authors.EmphasizeAllKeepsWrapped | main.js:37-43 | the replace for one variant keeps every occurrence of another variant between its opening and closing tags |
| Authors.HighlightFold | main.js:37-43 | replacing variant after variant, in list order, never shortens the text |
| Authors.Highlighted | main.js:35-45 | `highlightMyName` never shortens its input |
| Authors.HighlightMyName | main.js:35-45 | the loop over the name variants computes the left fold `Highlighted` |
| Authors.HighlightedUnchangedIff | main.js:35-45 | the result equals the input exactly when no variant occurs in it, in any letter case |
| Authors.RemoveTagsHighlighted | main.js:35-45 | removing the tags gives back the input, tag-stripped; for input without '<' it gives the input itself |
| Authors.HighlightFoldWrapsEvery | main.js:37-43 | after the loop over any list of good variants, every occurrence of each of them sits between an opening and a closing tag |
| Authors.HighlightedWrapsEvery | main.js:35-45 | in the result, every occurrence of every name variant, in any letter case, sits between an opening `<strong>` and a closing `</strong>` |
| Authors.SkipSpaces | main.js:55 | the run of `\s` characters starting at a position, up to the first non-space |
| Authors.SeparatorAtMatches | main.js:55 | a separator is found at a position exactly when white space, "and" in any case and white space start there, and it ends at the next non-space |
| Authors.FirstSeparator | main.js:55 | finds the leftmost separator at or after a position, and none when there is none |
| Authors.SplitOnAnd | main.js:54-55 | splitting yields at least one part, and each part's characters come from the input |
| Authors.SplitOnAndRejoin | main.js:54-55 | there is one separator fewer than parts, and interleaving parts and separators rebuilds the input |
| Authors.AndSeparatorsShape | main.js:55 | every separator is white space, "and" in any case, then white space |
| Authors.SplitOnAndPartsFree | main.js:55 | no part contains a separator, so the split is complete |
| Authors.SplitOnAndLeftmost | main.js:55 | the split scans left to right: no separator starts inside a part, and the next one starts right after it |
| Authors.SplitOnAndExample | main.js:55 | "x and and y" splits into "x" and "and y": an "and" that ends one separator cannot start the next |
| Authors.TrimmedNonEmpty | main.js:56-59 | trimming and dropping blank parts keeps at most one part per input part |
| Authors.TrimmedNonEmptyTrimmed | main.js:56-59 | every kept part is non-empty and neither starts nor ends with white space |
| Authors.TrimmedNonEmptyEmptyIff | main.js:56-59 | nothing is kept exactly when every input part is blank |
| Authors.TrimmedNonEmptyFrom | main.js:56-59 | every kept part is made of characters of one of the input parts |
| Authors.TrimmedNonEmptySingle | main.js:56-59 | a single part is kept, trimmed, exactly when it is not blank |
| Authors.AuthorSegments | main.js:54-59 | the segments are at most as many as the parts of the split, and each is non-empty and starts and ends with a non-space |
| Authors.TrimmedNonEmptyAppend | main.js:56-59 | trimming and dropping work part by part, so the kept parts are the trims of the non-blank parts, in order |
| Authors.HighlightEach | main.js:63-65 | one output per part: the highlighted part at the same position |
| Authors.FormatAuthors | main.js:51-68 | "" for an empty input, and "" exactly when every part of the split is blank |
| Authors.RemoveTagsJoinHighlighted | main.js:63-67 | removing the tags from the joined highlighted parts gives the plain parts joined by ", " |
| Authors.FormatAuthorsPlain | main.js:51-68 | for input without '<', the output without its tags is the trimmed non-blank segments joined by ", " |
| AuthorsExample.FormatAuthorsExample | main.js:51-68 | "Josep Lopez Camuñas and Jane Doe" becomes "<strong>Josep Lopez Camuñas</strong>, Jane Doe" |
| Picks.Picked | main.js:382-397 | the positions of the truthy candidates, increasing, one per truthy field |
| Picks.PresentFromTruthy | main.js:384 | every pushed link comes from a candidate whose field is truthy |
| Picks.PresentExactly | main.js:156-174 | with distinct captions, a candidate's link is pushed exactly when its field is truthy |
| Picks.PresentInOrder | main.js:394-397 | a later pushed link comes from a later candidate |
| Picks.PushPresent | main.js:156-174 | the push sequence equals the list of links of the truthy candidates |
| Publications.GetPubImage | main.js:15-19 | "" when the lower-cased, trimmed title is not a table key (so also for an empty title), otherwise that key's path |
| Publications.TitleKey | main.js:17 | the lookup key neither starts nor ends with white space and holds no upper-case letter |
| Publications.GetPubImageIgnoresCaseAndPadding | main.js:15-19 | titles that differ only in letter case or surrounding white space get the same figure |
| Publications.GetPubImageFromTable | main.js:5-13 | every figure shown is a path from the table |
| Publications.GetPubImageAsWritten | main.js:18 | the property read can yield an inherited `Object.prototype` member only for a key the table does not own |
| Publications.InheritedKeyShowsFigure | main.js:18 | the title "constructor" gets a figure from the page's lookup but none from the table |
| Publications.GetPubImageAgreesAwayFromInherited | main.js:18 | away from inherited names the page's lookup and the own-entry lookup agree |
| Publications.EmptyIffNoYears | main.js:322-324 | a list is empty exactly when no year has entries in it |
| Publications.SortByYear | main.js:322-324 | the sort returns as many entries as it is given (its order, stability and permutation are the lemmas below) |
| Publications.SortedUnique | main.js:322-324 | two newest-first lists with the same entries per year, in the same order, are equal |
| Publications.InsertSorted | main.js:322-324 | inserting into a newest-first list keeps it newest first |
| Publications.InsertPermutes | main.js:322-324 | inserting adds exactly the one entry |
| Publications.InsertKeepsYearOrder | main.js:322-324 | the inserted entry goes before the equal-year entries that follow it in the input |
| Publications.SortByYearSorted | main.js:322-324 | the sorted list is non-increasing in `year || 0` |
| Publications.SortByYearPermutes | main.js:322-324 | the sorted list is a permutation of the input |
| Publications.SortByYearStable | main.js:322-324 | entries with equal year keep their input order |
| Publications.SortByYearCharacterized | main.js:322-324 | every newest-first, equal-year-order-preserving arrangement of the input is the sorted list |
| Publications.SortByYearExample | main.js:322-324 | years 2021, 2023 and a missing year come out as 2023, 2021, then the missing one |
| Publications.SwapKeepsYearOrder | main.js:322-324 | exchanging neighbours with different years keeps each year's entries in order |
| Publications.InsertIntoSorted | main.js:322-324 | one insertion step extends the newest-first prefix by one entry, keeps each year's entries in order, and leaves the entries after it untouched |
| Publications.SortPublications | main.js:322-324 | the in-place sort leaves the array equal to the stable newest-first sort of its old contents |
| Publications.ChipSlots | main.js:394-397 | the four candidate chips PDF, Code, DOI and Scholar have distinct captions, are pushed when their URL is non-empty, and sit in that fixed order |
| Publications.ChipsOf | main.js:382-397 | each of the PDF, Code, DOI and Scholar chips is present exactly when its link is non-empty, and no chip has an empty URL |
| Publications.ChipsInOrder | main.js:394-397 | the chips appear in the order PDF, Code, DOI, Scholar |
| Publications.PrimaryUrl | main.js:404-405 | the primary URL is one of the pdf, doi, scholar and code links, and it is empty exactly when all four are |
| Publications.PrimaryUrlPrecedence | main.js:404-405 | the primary URL is the first non-empty of pdf, doi, scholar, code |
| Publications.PrimaryUrlIsAChip | main.js:399-406 | the card is clickable exactly when it has a chip, and it then opens one of the chips' URLs |
| Publications.CardClick | main.js:406-411 | a click opens the primary URL exactly when there is one and the click was not inside a link |
| Publications.MetaPieces | main.js:347-357 | one piece each for truthy authors (formatted), venue and year, in that order |
| Publications.MetaLine | main.js:347-359 | the meta line is blank exactly when there is nothing to show: no formatted authors, no venue and no shown year |
| Publications.BuildMeta | main.js:347-359 | the pushes and the join produce the meta line |
| Publications.MetaEndsWithYear | main.js:355-359 | when the year is shown the meta line ends with its decimal text, which reads back as the year |
| Publications.CardShape | main.js:399-406 | a card is clickable exactly when it has chips, and it then opens one of the chips' URLs |
| Publications.CardOf | main.js:338-377 | the card shows the publication's title; it has a figure exactly when the title is a table key, and the figure's alternative text is then the title itself |
| Publications.BuildCard | main.js:331-406 | building the card step by step gives the card record of the publication |
| Publications.CardsOf | main.js:331 | one card per publication, in list order |
| Publications.BuildCards | main.js:331-414 | the loop builds one card per entry of the sorted array, in order |
| Publications.LoadPublications | main.js:303-331 | a failed load shows only the placeholder; otherwise the array is sorted in place and the cards follow the sorted order |
| Profile.ProfileName | main.js:104 | the shown name is the configured name, or "Your Name" when none is configured |
| Profile.DocumentTitle | main.js:99-101 | with a name the title is the name plus the homepage suffix; without one the title is unchanged |
| Profile.DocumentTitleNamesOwner | main.js:99-101 | the configured name is read back from the title by dropping the suffix |
| Profile.Affiliation | main.js:106-109 | with a second affiliation the line is the first one, ", " and the second, even when the first is empty (", X"); without one it is the first affiliation; the line is empty exactly when both are |
| Profile.AffiliationSplits | main.js:106-108 | with a second affiliation the line splits back into the first affiliation, ", " and the second |
| Profile.GitHubUrl | main.js:157-162 | the GitHub link is "https://github.com/" followed by the user name |
| Profile.SocialCandidates | main.js:156-174 | the five candidate links have distinct captions |
| Profile.SocialLinks | main.js:156-174 | each of GitHub, Scholar, LinkedIn, ORCID and Twitter/X is listed exactly when its field is configured |
| Profile.SocialLinkCount | main.js:156-174 | the number of links equals the number of configured link fields |
| Profile.SocialLinksInOrder | main.js:156-174 | the links come in the order GitHub, Scholar, LinkedIn, ORCID, Twitter/X |
| Profile.InternshipNote | main.js:202-209 | the note is shown exactly when internships are open and a note is configured |
| Profile.CvLink | main.js:212-219 | the CV link is shown exactly when a CV URL is configured |
| Profile.ProfileOf | main.js:99-219 | the shown name is never blank, the document title is left alone without a configured name, the job title and location are shown as configured, the affiliation line is empty exactly when both affiliations are, and the internship note and CV link appear exactly when configured |
| Profile.LoadConfig | main.js:72-219 | a failed load changes nothing; otherwise the view holds the derived profile fields |
| ScholarUpdate.AnyOccurs | scripts/update_publications.py:22 | true exactly when some pattern occurs in the text |
| ScholarUpdate.ShouldSkipPaper | scripts/update_publications.py:17-22 | true exactly when some blacklist pattern occurs in the lower-cased "title venue" |
| ScholarUpdate.ShouldSkipIgnoresCase | scripts/update_publications.py:21 | the test gives the same answer for any letter case of title and venue |
| ScholarUpdate.WorkshopVenueSkipped | scripts/update_publications.py:11-22 | a paper whose venue is the blacklisted workshop, in any letter case, is skipped |
| ScholarUpdate.Get | scripts/update_publications.py:34-36 | a present key gives its value, a missing one "" |
| ScholarUpdate.VenueFallback | scripts/update_publications.py:37-42 | the venue is the first non-empty of venue, journal and conference, else "" |
| ScholarUpdate.VenueOf | scripts/update_publications.py:37-42 | the venue is one of the venue, journal and conference fields, and empty exactly when all three are |
| ScholarUpdate.YearOf | scripts/update_publications.py:43-47 | the year is the integer parse of `pub_year` when that is non-empty, and of `year` otherwise; no year when neither is given |
| ScholarUpdate.YearOfPubYear | scripts/update_publications.py:43-47 | a year written as `pub_year` is read back exactly |
| ScholarUpdate.YearOfFallback | scripts/update_publications.py:43-47 | without a `pub_year`, a year written as `year` is read back exactly |
| ScholarUpdate.YearOfMalformedPubYear | scripts/update_publications.py:43-47 | a non-empty `pub_year` that is not an integer gives no year, even when `year` holds one |
| ScholarUpdate.YearOfNotADate | scripts/update_publications.py:43-47 | example: `pub_year` "n.d." with `year` "2020" gives no year |
| ScholarUpdate.Summary | scripts/update_publications.py:64 | the summary is a prefix of the abstract of at most 350 characters, the whole abstract when it is that short |
| ScholarUpdate.Transform | scripts/update_publications.py:34-72 | the title is the stripped bib title, the authors the bib authors, the venue the fallback chain, the year the parsed year, the summary the cut abstract, and the links are the e-print, "", "" and the Scholar page |
| ScholarUpdate.Kept | scripts/update_publications.py:50-72 | one reference contributes at most one record: its transform, and only when that record does not match the blacklist |
| ScholarUpdate.Selected | scripts/update_publications.py:49-73 | no more records come out than references go in |
| ScholarUpdate.PyHead | scripts/update_publications.py:31 | the slice is a prefix of the references of Python's length for a non-negative or negative bound |
| ScholarUpdate.SelectedLength | scripts/update_publications.py:49-52 | each skipped reference shortens the output by one, so skipped records are not replaced |
| ScholarUpdate.SelectedNotSkipped | scripts/update_publications.py:50-52 | no output record matches the blacklist, and each is the transform of a reference |
| ScholarUpdate.SelectedAppend | scripts/update_publications.py:58-73 | selection distributes over concatenation, so the output keeps reference order |
| ScholarUpdate.FetchPublications | scripts/update_publications.py:29-74 | the loop with `continue` produces the selection of the sliced references |
| ScholarUpdate.OutputBounded | scripts/update_publications.py:31 | at most `max_papers` records come out |
| ScholarUpdate.ScriptOutputBounded | scripts/update_publications.py:77-78 | a run of the script, which passes `MAX_PAPERS` = 40, writes at most 40 records |
| ScholarUpdate.LaterReferencesIgnored | scripts/update_publications.py:31 | references after the first `max_papers` do not affect the output |
| EndToEnd.ScrapedChips | main.js:394-405 | for links without DOI and code, the primary URL is the PDF, else the Scholar page; there are chips exactly when one of these is given, and only PDF and Scholar chips |
| EndToEnd.ScrapedCardLinks | scripts/update_publications.py:65-70 | the card of a scraped record opens the e-print, else the Scholar page; it is clickable exactly when one of them is given and shows only PDF and Scholar chips |

## Findings

| source | as written | input that shows it | evidently intended | confidence | as-written member | corrected member |
|---|---|---|---|---|---|---|
| main.js:18 | `PUB_IMAGES[key] \|\| ""` is an ordinary property read, so a key the table does not own falls through to `Object.prototype` and the inherited member is used as the image `src` | a publication titled "constructor" (also "__proto__"), in any letter case and padding | only the table's own entries give a figure; any other title gets "" and no figure | not executed | Publications.InheritedKeyShowsFigure | Publications.GetPubImage |

The cards (`Publications.CardOf`) use the corrected lookup.

## Left out

- Fetching `config.json` and `publications.json`, `res.ok`, JSON parsing and `console.error`: asynchronous I/O. The parsed file is an `Option` input, and `None` stands for any failure.
- DOM construction (element creation, `innerHTML`, classes, styles, `target`/`rel`, lazy loading): the model returns the records the DOM shows.
- The missing `pub-list` element (main.js:327) and the other missing-element guards: the model assumes the page's elements exist.
- The footer name and the footer year (main.js:96-98): the year is the wall clock, and the footer's distinction between an absent and an empty name is lost when missing fields are "".
- The avatar and photo handling, the e-mail anchors, research topics, news, teaching, awards and service (main.js:112-153, 190-199, 221-298): direct field bindings outside the modelled derivations.
- Text.Lower: does not model full Unicode case mapping of JavaScript `toLowerCase`, the regular expression `i` flag or Python `str.lower`, only ASCII and Latin-1 letters.
- Numbers.ShowInt: JavaScript years are doubles; `String(n)` uses exponent notation from 1e21 on and writes the nearest double above 2^53, while the model writes the decimal digits of an unbounded integer.
- Numbers.ParseInt: does not model Python `int()` accepting surrounding white space or digit-group underscores, nor non-ASCII digits.
- Publications.YearKey: does not model a year stored as a string or as a non-integer number in publications.json; years are integers or absent.
- Publications.LoadPublications: does not model a `publications.json` that parses to something other than an array.
- ScholarUpdate.FetchPublications: the `scholarly` search and fill calls, the progress `print`, `json.dumps` and writing the file are outside the model; the loop receives the filled records.
- ScholarUpdate.Transform: a bib title that is present but `null` (which raises in the script) is not modelled; bib values are strings.
- Publications.CardClick: does not model `window.open` or how the click target is found; whether the click landed inside a link is a parameter.
