# Huskers schedule scrapers and stadium manifest, modelled in Dafny

The repository scrapes the Nebraska football schedule page into one record per
game. It has two scrapers:

- `scrape.py` parses the static HTML with BeautifulSoup.
- `scrape_playwright.py` reads the rendered page through Playwright locators.

It also has a manifest builder, `data/build_stadium_manifest.py`. The builder
derives a venue slug from each game's location and keeps the first record per
slug. It then records which `stadiums/<slug>.jpg|.png|.webp` images exist and
splits the records into a `found` and a `missing` list, each sorted by slug.

This project models that logic and proves its properties.

- `wrappers.dfy` (`Wrappers`): the `Option` type.
- `text.dfy` (`Text`): the Python string operations the code relies on:
  - `str.isspace`, with the full Unicode whitespace list;
  - `strip()`, `split()`, `" ".join(...)` and `split("/")`.
- `slugs.dfy` (`Slugs`):
  - `slugify` as a method with its character loop and `while` loop, proved equal to the function `Slug`;
  - `parse_location` as a function.
- `manifest.dfy` (`Manifest`): lines 43-70 of `main`, as methods.
  - The `uniq` dictionary is a `map` paired with its insertion order.
  - Each record's `files_present` list is updated in place.
  - The result is proved equal to the function `ManifestOf`.
  - The properties are lemmas about `ManifestOf`.
- `schedule.dfy` (`Schedule`): what both scrapers share:
  - the record `parse_event` returns;
  - the W > L > T precedence;
  - making links absolute;
  - `clean_space` / `clean`;
  - the "keep the anchors that have a link" filter.
- `scrape.py`'s `parse_event` is modelled in `scrape.dfy` (`StaticScraper`); `scrape_playwright.py`'s is in `scrape_playwright.dfy` (`BrowserScraper`).
  - Each takes an abstract event: the nodes or locators the CSS selectors produce.
  - Each is a method that reassigns `status`, `result` and `kickoff` across branches.
  - Each collects the links with a loop that appends to a list.
- `comparison.dfy` (`Comparison`): where the two scrapers' score rules agree and where they differ.

The file system is a set of existing path strings. An HTML node is the list of
its text strings plus its attributes. A Playwright element is its rendered
text, its attributes, its `currentSrc` and `src` properties, and one flag. The
rendered text is an `Option`, None when `inner_text` timed out. The flag says
whether evaluating a script on the element timed out.

## Model

| member | source | states |
|---|---|---|
| Slugs.Slugify | data/build_stadium_manifest.py:10-23 | The character loop with its `dash` flag, then `strip("-")`, then the `while "--" in res` loop, computes exactly `Slugs.Slug(text)`, the model of `slugify`. |
| Slugs.ReplaceDoubleDash | data/build_stadium_manifest.py:22 | One left-to-right `replace("--", "-")` never lengthens the text. It strictly shortens any text that holds `--`, which is why the while loop ends. |
| Slugs.CollapseDashes | data/build_stadium_manifest.py:21-22 | After the replace loop no `--` is left. |
| Slugs.StripDashes | data/build_stadium_manifest.py:20 | `strip("-")` leaves no `-` at either end. It drops exactly the leading run of `-` and the trailing run of `-`, and the rest of the text is kept as a contiguous slice. |
| Slugs.DashesShape | data/build_stadium_manifest.py:14-19 | On text with no upper-case letter, the character loop outputs only `a-z`, `0-9` and `-`, and never two `-` in a row. |
| Slugs.ReplaceAmpNoUpper | data/build_stadium_manifest.py:11 | Rewriting `&` to `and` introduces no upper-case letter. |
| Slugs.StripDashesShape | data/build_stadium_manifest.py:20-22 | Stripping the ends of such text gives a well-formed slug: only slug characters, no `-` at either end, no `--`. |
| Slugs.SlugWellFormed | data/build_stadium_manifest.py:10-23 | Every slug is well formed and contains no `&`. |
| Slugs.SlugOfNothing | data/build_stadium_manifest.py:11 | `slugify(None)` and `slugify("")` are both `""`. |
| Slugs.ReplaceAmpOfSlug | data/build_stadium_manifest.py:11 | On slug characters, the `&` rewrite changes nothing. |
| Slugs.DashesOfSlug | data/build_stadium_manifest.py:14-19 | On a well-formed slug, the character loop changes nothing. |
| Slugs.SlugIdempotent | data/build_stadium_manifest.py:10-23 | `slugify(slugify(s)) == slugify(s)` for every input. |
| Slugs.AlnumRunsShape | data/build_stadium_manifest.py:14-19 | Every maximal run of letters and digits that the character loop keeps is non-empty and holds letters and digits only. |
| Slugs.DashesRuns | data/build_stadium_manifest.py:14-19 | The character loop, `Slugs.Dashes`, outputs the maximal runs of letters and digits joined by single `-`, with at most one `-` before them and at most one after. |
| Slugs.SlugRuns | data/build_stadium_manifest.py:10-23 | `slugify(text)` equals the maximal runs of ASCII letters and digits of the lowered text with `&` spelt `and`, joined by single `-`. |
| Slugs.SlugOfSeparators | data/build_stadium_manifest.py:10-23 | Text made only of whitespace and `/` slugs to `""`. |
| Slugs.SlugOfBlank | data/build_stadium_manifest.py:10-23 | Text made only of whitespace slugs to `""`. |
| Slugs.SlugAmpExample | data/build_stadium_manifest.py:11 | `slugify("A & B")` is `"a-and-b"`. |
| Slugs.SlugExample | data/build_stadium_manifest.py:10-23 | `slugify("Memorial Stadium-Lincoln, Neb.")` is `"memorial-stadium-lincoln-neb"`. |
| Slugs.ParseLocationShape | data/build_stadium_manifest.py:25-33 | For `Slugs.ParseLocation`, the model of `parse_location`: the slug is absent exactly when the location is None or empty, and then all three values are None. Otherwise there is a city and the slug is well formed. |
| Slugs.ParseCityAndStadium | data/build_stadium_manifest.py:29-33 | For `"<city>/<stadium>"` with one `/`, city and stadium are the trimmed parts, and the slug is `slugify` of `"<stadium>-<city>"` when the trimmed stadium is non-empty. With a blank stadium it is `slugify` of the trimmed city, or, when the city is blank too, of the whole raw text. |
| Slugs.ParseCityStadiumRest | data/build_stadium_manifest.py:29-32 | For `"<city>/<stadium>/<rest>"`, with two or more `/`, the city and the stadium are still the first two trimmed parts. The slug is `slugify` of `"<stadium>-<city>"` when the trimmed stadium is non-empty, else of the trimmed city. When both are blank it is `slugify` of the whole raw text, `rest` included. |
| Slugs.ParseLocationRawExample | data/build_stadium_manifest.py:32 | `"//B"` gives city `""`, stadium `""` and slug `"b"`: the raw-text fallback takes the slug from the text after the second `/`. |
| Slugs.ParseBlankParts | data/build_stadium_manifest.py:29-32 | With one `/` and both trimmed parts blank, the raw-text fallback gives the empty slug, as a blank city would. |
| Slugs.ParseCityOnly | data/build_stadium_manifest.py:29-33 | Without a `/`, the trimmed text is the city and there is no stadium. The slug is `slugify` of the trimmed city, which is `""` when the text is all whitespace. |
| Slugs.ParseLocationExample | data/build_stadium_manifest.py:26-33 | `"Lincoln, Neb. / Memorial Stadium"` gives city `"Lincoln, Neb."`, stadium `"Memorial Stadium"` and slug `"memorial-stadium-lincoln-neb"`. |
| Manifest.Seed | data/build_stadium_manifest.py:46-59 | The record a game would add is fresh: its slug is well formed, `files_present` is empty, and `suggested_filenames` are the three names. |
| Manifest.SeedSlug | data/build_stadium_manifest.py:46-56 | A game adds a record exactly when its slug is non-empty. That record carries the game's slug, raw location and opponent name. |
| Manifest.DedupSlugs | data/build_stadium_manifest.py:44-59 | `Manifest.Dedup` models the `uniq` loop. Its records have distinct slugs. A slug has a record exactly when some game produces it. |
| Manifest.DedupFirstWins | data/build_stadium_manifest.py:50-59 | Every record is the one made from the first game with that slug. |
| Manifest.LaterDuplicatesChangeNothing | data/build_stadium_manifest.py:50 | Games whose slug already has a record, or that have no slug, leave the records unchanged. |
| Manifest.DedupFresh | data/build_stadium_manifest.py:51-59 | Every de-duplicated record is fresh. |
| Manifest.ProbeShape | data/build_stadium_manifest.py:63-67 | `Manifest.Probe` models the probe loop. Its paths are exactly the candidate paths that exist, in extension order, as a subsequence of all candidate paths. |
| Manifest.FilesPresentSpec | data/build_stadium_manifest.py:58-67 | `files_present` is exactly `"stadiums/" +` each suggested file name that exists, in `.jpg`, `.png`, `.webp` order. |
| Manifest.CandidatesArePaths | data/build_stadium_manifest.py:58-65 | The suggested file names, with the `stadiums/` prefix, are exactly the paths the probe loop tries. |
| Manifest.ProbeFiles | data/build_stadium_manifest.py:64-67 | The in-place probe loop for one record gives that record with exactly the probed files. |
| Manifest.AddGame | data/build_stadium_manifest.py:46-59 | One pass of the de-duplication loop: the dictionary and its insertion order go on holding the de-duplicated records, now including this game. |
| Manifest.CollectVenues | data/build_stadium_manifest.py:44-59 | After the loop, the dictionary, in insertion order, holds exactly the de-duplicated records of all games. |
| Manifest.ProbeAndSplit | data/build_stadium_manifest.py:61-70 | Probing each dictionary value in place and then filtering and sorting gives exactly the specified found and missing lists. |
| Manifest.BuildManifest | data/build_stadium_manifest.py:43-70 | The whole section computes `Manifest.ManifestOf(games, existing)`, the found and missing lists of the de-duplicated, probed records. |
| Manifest.FoundMissingSplit | data/build_stadium_manifest.py:69-70 | Between them the two filters, `Manifest.Found` and `Manifest.Missing`, keep every record exactly once: `found` gets those with files, `missing` those without. |
| Manifest.FoundMissingDistinct | data/build_stadium_manifest.py:69-70 | With distinct slugs, no slug lands on both sides. |
| Manifest.SortBySlugSpec | data/build_stadium_manifest.py:69-70 | `Manifest.SortBySlug`, the model of `sorted(..., key=slug)`, gives an ascending permutation of its input. |
| Manifest.SortBySlugSlugs | data/build_stadium_manifest.py:69-70 | Sorting keeps the set of slugs, and keeps them distinct. |
| Manifest.SortedDistinctIsStrict | data/build_stadium_manifest.py:69-70 | With distinct slugs, the sorted list is strictly ascending. |
| Manifest.BelowTotal | data/build_stadium_manifest.py:69-70 | Python's string order on slugs is total. |
| Manifest.BelowTransitive | data/build_stadium_manifest.py:69-70 | Python's string order on slugs is transitive. |
| Manifest.BelowIrreflexive | data/build_stadium_manifest.py:69-70 | Python's string order on slugs is irreflexive. |
| Manifest.ManifestSpec | data/build_stadium_manifest.py:43-70 | In `Manifest.ManifestOf`, built on `Manifest.Venues` (the de-duplicated, probed records), `found` and `missing` together hold every de-duplicated record once, with its probed files. A slug is listed exactly when some game produces it, and on one side only. `found` holds the records with files and `missing` those without. Both are strictly ascending by slug. |
| Text.Strip | scrape_playwright.py:22 | `strip()` removes exactly the leading and trailing whitespace, and the result does not start or end with whitespace. |
| Text.StripNonSpaces | data/build_stadium_manifest.py:29 | Stripping drops only whitespace. |
| Text.Split | scrape.py:26 | `split()` gives non-empty words that hold no whitespace. |
| Text.SplitAtSpaces | scrape.py:26 | Words break at whitespace: splitting `a`, then a non-empty run of whitespace, then `b` gives the words of `a` followed by the words of `b`. |
| Text.SplitOfSpaces | scrape.py:26 | Text made only of whitespace has no words. |
| Text.SplitOneWord | scrape.py:26 | Non-empty text without whitespace is one word, itself. |
| Text.SplitStrip | scrape.py:19-20 | Stripping a text does not change its words. |
| Text.SplitJoinSpaced | scrape.py:51 | Texts joined with a space split into the words of each text in turn. |
| Text.JoinSnoc | scrape.py:26 | `Text.Join`, the model of `sep.join(...)`: joining one more part appends the separator and that part, or gives the part alone when there was none before. |
| Text.SplitJoin | scrape.py:26 | Splitting (`Text.Split`) words joined with single spaces by `Text.Join` gives the words back. |
| Text.NormalizeSpaceNormalized | scrape.py:26 | `Text.NormalizeSpace`, the model of `" ".join(s.split())`, has no whitespace at either end, and every whitespace character in it is a single space between two non-space characters. |
| Text.NormalizeSpaceKeepsText | scrape.py:26 | Normalising whitespace keeps every non-space character, in order. |
| Text.NormalizeSpaceIdempotent | scrape.py:26 | Normalising twice is normalising once. |
| Text.SplitOn | data/build_stadium_manifest.py:29 | `loc.split("/")` gives at least one part, and no part holds a `/`. |
| Text.SplitOnJoin | data/build_stadium_manifest.py:29 | Joining the parts with `/` gives the location back. |
| Text.SplitOnFirst | data/build_stadium_manifest.py:29-30 | The first part is the text before the first `/`. |
| Text.StripAll | data/build_stadium_manifest.py:29 | The comprehension strips each part and keeps their number. |
| Schedule.OutcomeOf | scrape.py:46 | The letter is W exactly when there is a win marker, L exactly when there is a loss marker and no win marker, and T otherwise. |
| Schedule.AbsolutizeSpec | scrape.py:93-94 | An href absolutized by `Schedule.Absolutize` never starts with `/`. It is either the href itself or `https://huskers.com` followed by it, and it is the href itself exactly when the href did not start with `/`. Absolutizing twice is absolutizing once. |
| Schedule.CleanSpace | scrape.py:25-26 | No text stays no text. Text comes out normalised, with the same words and the same non-space characters. |
| Schedule.CleanSpaceIdempotent | scrape_playwright.py:14-15 | Cleaning twice is cleaning once. |
| Schedule.KeepExactly | scrape.py:87-95 | The links kept by `Schedule.Keep` correspond one to one, in document order, to the anchors that give a link. |
| StaticScraper.AttrOrNone | scrape.py:22-23 | There is a value exactly when there is a node that has the attribute, and the value is that attribute's value. |
| StaticScraper.GetTextSpec | scrape.py:19-20 | `StaticScraper.GetText`, the model of `get_text(strip=True)`, joined with nothing or with one space, keeps every non-space character of the node's strings, in order, and has no whitespace at either end. |
| StaticScraper.TextOrNoneSpec | scrape.py:19-20 | `StaticScraper.TextOrNone`, the model of `text_or_none`, gives text exactly when there is a node. That text keeps every non-space character of the node's strings, in order, and has no whitespace at either end. |
| StaticScraper.GetTextWords | scrape.py:50-51 | `get_text(" ", strip=True)` keeps the words of different strings apart: its words are the words of the node's strings, one string after another. |
| StaticScraper.HyphenatedLast | scrape.py:52-53 | There are hyphenated tokens exactly when some token holds a `-`. The last of them is the last token holding a `-`. |
| StaticScraper.LabelScoreSpec | scrape.py:50-53 | For `StaticScraper.LabelScore`, which `StaticScraper.ResultScore` applies to the label's normalised text: the score is the last whitespace token of the label that holds a `-`, or the whole label when no token does. |
| StaticScraper.LabelScoreExample | scrape.py:47-53 | The label `"W 27-14"` gives the score `"27-14"`. |
| StaticScraper.LinkOf | scrape.py:88-95 | An anchor gives a link exactly when it has a non-empty href. The link's href is the absolutized href, and its title is the title node's text, else the anchor's text. |
| StaticScraper.LinksSpec | scrape.py:87-95 | The output links are exactly those of the anchors with a non-empty href, one each and in document order, and none is site-relative. |
| StaticScraper.ClassifyResult | scrape.py:34-60 | With markers the status is final, with the W > L > T outcome and the label score. Otherwise it is upcoming exactly when the time label has non-empty text, which is then the kickoff. Otherwise it is tbd. `result` is set exactly when final, `kickoff` exactly when upcoming. |
| StaticScraper.Logos | scrape.py:62-72 | The Nebraska logo comes from wrapper 0 and the opponent logo from wrapper 1. Each is None when that wrapper does not exist. |
| StaticScraper.CollectLinks | scrape.py:87-95 | The link loop builds exactly `Links(anchors)`. |
| StaticScraper.ParseEvent | scrape.py:28-111 | Every field of the returned record: the classification above, with tbd and no result or kickoff when there is no result block; the logos; the normalised location; the TV logo; the links; and the plain text fields. |
| BrowserScraper.SafeText | scrape_playwright.py:17-24 | There is text exactly when there is a match whose text could be read, and it is that text stripped. |
| BrowserScraper.SafeAttr | scrape_playwright.py:26-33 | There is a value exactly when the first match exists and has the attribute. |
| BrowserScraper.FirstUsableSpec | scrape_playwright.py:42-52 | The first usable candidate is non-empty and not a `data:image` placeholder. There is one exactly when some candidate is usable, and no candidate before it is. |
| BrowserScraper.GetImgSrcSpec | scrape_playwright.py:35-53 | For `BrowserScraper.GetImgSrc`, the model of `get_img_src`: there is no URL when nothing matches or the script times out. Otherwise the URL is the first usable candidate among the script result (`BrowserScraper.ScriptSource`, `currentSrc || src || data-src || ''`), `src` and `data-src`. A returned URL is never empty and never starts with `data:image`. |
| BrowserScraper.GetImgSrcPlaceholder | scrape_playwright.py:43-47 | A placeholder script result falls back to a usable `src` attribute. |
| BrowserScraper.FirstHyphenatedSpec | scrape_playwright.py:77 | The result is the first token holding a `-`, or the default when no token does. |
| BrowserScraper.LabelScoreSpec | scrape_playwright.py:75-78 | For `BrowserScraper.LabelScore`: the score is the first whitespace token of the label text that holds a `-`, or the label text itself. |
| BrowserScraper.LabelScoreExample | scrape_playwright.py:75-78 | The label `"W 27-14"` gives the score `"27-14"`. |
| BrowserScraper.LinkOf | scrape_playwright.py:110-117 | An anchor gives a link exactly when its href is non-empty. The link's href is the absolutized href, and its title (`BrowserScraper.TitleOf`) is the title element's text when non-empty, else the anchor's cleaned text. |
| BrowserScraper.LinksSpec | scrape_playwright.py:108-118 | The output links are exactly those of the anchors with a non-empty href, one each and in order, and none is site-relative. |
| BrowserScraper.ClassifyResult | scrape_playwright.py:63-83 | Final exactly when some marker matches, with the W > L > T outcome and the score of the label text (`""` when absent). Otherwise upcoming exactly when the label text is non-empty, and then that text is the kickoff. Otherwise tbd with neither. |
| BrowserScraper.Logos | scrape_playwright.py:91-97 | The logos come from wrappers 0 and 1 through `get_img_src`. The opponent logo is None without a second wrapper. |
| BrowserScraper.CollectLinks | scrape_playwright.py:108-118 | The indexed link loop builds exactly `Links(anchors)`. |
| BrowserScraper.ParseEvent | scrape_playwright.py:57-134 | Every field of the returned record: the classification, tbd with no result or kickoff, the logos, the cleaned location, the TV logo through `get_img_src`, the links, and the plain text fields. |
| Comparison.ScoresAgreeOnOneHyphen | scrape.py:52-53 | When exactly one token holds a `-`, both scrapers give that token as the score. |
| Comparison.ScoresDifferOnTwoHyphens | scrape_playwright.py:77 | With two hyphenated tokens, `scrape.py` keeps the second and `scrape_playwright.py` the first. |
| Comparison.ScoresWithoutLabel | scrape_playwright.py:75 | Without a label, `scrape.py` gives no score and `scrape_playwright.py` gives `""`. |

## Left out

- File and JSON I/O is not modelled. This covers reading `data/current.json` and the exit when it is missing (data/build_stadium_manifest.py:36-41), writing the JSON outputs, and `mkdir`. The file system is a set of existing path strings.
- Markdown report rendering (data/build_stadium_manifest.py:87-110) is presentation formatting and is not modelled.
- The fixed manifest fields `generated_from`, `stadium_dir` and `notes` (data/build_stadium_manifest.py:73-83) are constants and are not modelled.
- Networking, HTML parsing and CSS selector evaluation are not modelled: `requests.get`, BeautifulSoup, and Playwright's launch, `goto`, scrolling and waits. Each event is given as the nodes or locators its selectors return. Which strings a node's `get_text` visits is part of that input.
- `datetime.now()` timestamps and the top-level `scrape`/`scrape_with_playwright` functions are not modelled.
- Only Playwright's `TimeoutError` is modelled, not other exceptions, and not timing. A timed-out `inner_text` is an element whose text is absent, and a timed-out `evaluate` is a flag that makes `get_img_src` give None.
- BrowserScraper.SafeAttr: a timed-out `get_attribute` is not told apart from a missing attribute. `safe_attr` gives None for both as well.
- Slugs.Slugify: `str.lower` and `str.isalnum` are modelled on ASCII only. A non-ASCII letter or digit is treated as a separator.
- StaticScraper.AttrOrNone: attribute values are single strings. BeautifulSoup's list-valued attributes such as `class` are never read by this code.
- Manifest.ProbeAndSplit: the records are updated in place through the dictionary's values (`rec["files_present"].append`). The model writes the updated record back into the `map`, so aliasing between the dictionary and other references is not modelled.
- Manifest.SortBySlugSpec: `sorted` is modelled as an insertion sort on Python's code-point order of strings. Stability is not stated separately, because every slug in each list is distinct.
- Text.Strip: `strip()` and `split()` use the whitespace set of `str.isspace` as a fixed list of code points. Unicode normalisation is not modelled.

## Notes

- `parse_location` builds the slug base from `"<stadium>-<city>"` when the stadium is non-empty, else from the city, else from the raw location (data/build_stadium_manifest.py:32). The raw location is used only when both trimmed parts are blank. With one `/` it gives the empty slug, as a blank city would (Slugs.ParseBlankParts). With two or more `/` the text after the second `/` matters: `"//B"` gives the slug `"b"` (Slugs.ParseLocationRawExample). A location without a `/` whose city is blank gives the empty slug (Slugs.ParseCityOnly).
- `scrape_playwright.py` takes the first hyphenated token of the label as the score (scrape_playwright.py:77). `scrape.py` takes the last (scrape.py:52-53). Comparison.ScoresDifferOnTwoHyphens shows a label where the two differ.
- Both scrapers pick the outcome by W > L > T precedence when several markers are present (scrape.py:46, scrape_playwright.py:74).
- `scrape.py` classifies a game only when its result block exists (scrape.py:39). Without one the game is tbd.
