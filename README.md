# Shoe-review sentiment pipeline, modelled in Dafny

This project models the deterministic core of a four-stage review pipeline:

1. **Scrape** (`scraper.py`). A crawl controller walks a fixed list of Snapdeal product links. For each product it requests review pages 1 to 10 in order, stopping at the first page without review blocks, and makes at most one record per block. It appends each product's records to `reviews.csv`, writing the header only when the file did not exist.
2. **Curate** (`clean_csv.py`). Drops rows whose review text repeats an earlier row. Then appends 800 synthetic Negative rows and 800 synthetic Neutral rows.
3. **Label** (`train_model.py`). A text cleaner feeds the classifier. A labeler trusts the synthetic ratings (1 and 3) and otherwise thresholds a polarity score.
4. **Serve** (`main.py`). A second, shorter text cleaner runs at prediction time. A guard rejects requests while no model is loaded.

Modules:

- `Strings` (`strings.dfy`): the ASCII semantics of the Python string operations used by the pipeline.
  - `lower`, `title`, `split`/`join`, `replace`, `strip`, `str(n)`.
  - The literal-text scan `str.format` makes of a template outside its replacement fields, with doubled braces and lone braces.
  - The character-class filter `re.sub(r'[^a-zA-Z\s]', '', …)`.
- `Reviews` (`reviews.dfy`): the five-column record and concatenation of row batches.
- `Scraper` (`scraper.dfy`): the page and block loops as methods with loop invariants, each proved against a specification function. The CSV file is the class `ReviewsCsv`, holding an existence flag and its lines.
- `Targets` (`targets.dfy`): the product list `TARGET_PRODUCTS` and the run over it.
- `Curator` (`curator.dfy`): the in-place deduplication as a method of the class `Frame`, the synthetic-row generator loop, and the final concatenation.
- `Training` (`training.dfy`): `get_smart_label` and the training-side `clean_text`.
- `Serving` (`serving.dfy`): the serving-side `clean_text`, the `model is None` guard, and the train/serve consistency facts.

Inputs that come from the outside world are parameters:

- **Browser results.** For each product, the outcome of each of its ten page requests: a failure, or a loaded page with its review blocks. Each block is either its star count and text, or a failure.
- **Random draws.** The `random.choice`/`random.randint` results are sequences of phrase indices below 15 and suffixes in [1, 1000].
- **Polarity score.** TextBlob's score is a `real`.
- **Loaded model.** An optional function from cleaned text to a sentiment.

All text is ASCII. Whitespace is the ASCII part of Python's `str.isspace`, that is characters 9 to 13 and 28 to 32.

## Model

| member | source | states |
|---|---|---|
| Scraper.CleanLink | scraper.py:52 | The truncated link is a prefix of the link, contains no `#`, and is followed in the link by a `#` whenever it is shorter than the link. |
| Scraper.SecondToLastSegment | scraper.py:59 | When the truncated link has a `/`, the name segment is the `/`-free text that ends at the last `/` and starts after the `/` before it, or at the start. |
| Scraper.ProductName | scraper.py:58-61 | The product name: `title(seg.replace('-', ' '))` of the `[-2]` piece of the truncated link, or "Unknown Shoe" when that piece does not exist. Its properties are the lemmas ProductNameShape, ProductNameOfSegment and UnknownShoeWithSlash. |
| Scraper.ProductNameShape | scraper.py:58-61 | A truncated link without `/` gets the name "Unknown Shoe". Every name is free of `/`, `#` and `-`. |
| Scraper.ProductNameOfSegment | scraper.py:59 | A link `/seg/` is named `title(seg.replace('-', ' '))`. |
| Scraper.UnknownShoeWithSlash | scraper.py:58-61 | A link that contains `/` can also be named "Unknown Shoe", so the fallback is not the only source of that name. |
| Scraper.ReviewPageUrl | scraper.py:56-65 | The address requested for a page: the link's literal text, then `/reviews?page=`, then `str(page)`. There is none when a brace in the link is not doubled, because `format` then raises. Its properties are the lemmas ReviewPageUrlInjective, PlainReviewPageUrl and BracedReviewPageUrl. |
| Scraper.ReviewPageUrlInjective | scraper.py:56-65 | Whether an address can be built does not depend on the page. When it can, two page numbers give the same address exactly when they are equal. |
| Scraper.PlainReviewPageUrl | scraper.py:56-65 | For a link without braces, the address of page p is `clean_link + "/reviews?page=" + str(p)`. |
| Scraper.BracedReviewPageUrl | scraper.py:56-65 | A link with a brace that is not doubled, after a start that scans as literal text (doubled braces allowed), has no address for any page. So every link whose first undoubled brace is lone has none. |
| Scraper.LateLoneBrace | scraper.py:56-65 | The link `a{{b}c`, whose `}` is not doubled, has no address for any page. |
| Strings.FormatLiteral | scraper.py:65 | The literal text `format` makes of a template fragment with no replacement field. A lone brace gives none. The text is never longer than the fragment. Its properties are the lemmas FormatLiteralPlain, FormatLiteralLoneBrace and FormatLiteralDoubledBrace. |
| Strings.FormatLiteralPlain | scraper.py:65 | A fragment without braces stands for itself. |
| Strings.FormatLiteralDoubledBrace | scraper.py:65 | A doubled brace between brace-free parts stands for one brace. |
| Strings.FormatLiteralAppend | scraper.py:65 | The literal scan works piecewise. After a start that scans, a fragment that fails makes the whole fail, and one that scans adds its text after the start's. |
| Strings.FormatLiteralLoneBrace | scraper.py:65 | A brace-free start followed by a lone brace makes the fragment unusable. |
| Scraper.NormaliseText | scraper.py:80 | Replaces each line feed by a space, then deletes each "Verified Buyer". Its property is the lemma NormaliseRemovesNewlines. |
| Scraper.NormaliseRemovesNewlines | scraper.py:80 | Normalised review text contains no line feed. |
| Scraper.BlockRecords | scraper.py:76-89 | The records of one block: none for a failing block or a normalised text of at most 10 characters, otherwise one record. Its properties are the lemmas PageRecordsFromBlocks and BlockIndependence. |
| Scraper.PageRecordsFromBlocks | scraper.py:74-91 | Every record of a page has the product's name, date "2025-01-20", verified "Yes", a text longer than 10 characters and no line feed. Each record comes from a non-failing block whose star count is its rating and whose normalised raw text is its text. |
| Scraper.BlockIndependence | scraper.py:74-91 | A page's records are those of the blocks before a given block, then that block's own, then those of the blocks after it. A failing block contributes nothing and leaves the other blocks' records unchanged. |
| Scraper.PageRecordsAppend | scraper.py:74-89 | The records of consecutive block runs concatenate in block order. |
| Scraper.CrawlRecordsAppend | scraper.py:63-94 | The records of consecutive page runs concatenate in page order. |
| Scraper.FailedPageContributesNothing | scraper.py:64-94 | A page whose fetch or parse raised adds no records, and the pages before and after it still contribute theirs. |
| Scraper.RequestCountFrom | scraper.py:63-72 | Counting requests from a page on: at least one more is made when pages remain. Every page before the last one requested is not an empty page. The crawl stops early only on an empty page. |
| Scraper.RequestedPages | scraper.py:63-72 | The number of pages requested for a product: at most 10, and none when no address can be built from the link. |
| Scraper.UnformattableLinkYieldsNothing | scraper.py:63-94 | A product whose addresses cannot be built yields no records, whatever the browser would return. |
| Scraper.RequestCountStopsAtFirstEmptyPage | scraper.py:63-72 | When an address can be built, between 1 and 10 pages are requested. No page before the last requested one loaded empty. If fewer than 10 are requested, the last one loaded empty. No page after the first empty page is requested. |
| Scraper.CrawlStep | scraper.py:63-94 | Requesting one more page appends exactly that page's records. |
| Scraper.EmptyPageEndsCrawl | scraper.py:71-72 | A page that loads with no blocks is the last request and adds no records. |
| Scraper.CrawlPage | scraper.py:74-91 | The block loop returns exactly the page's specified records. |
| Scraper.CrawlProduct | scraper.py:63-94 | The page loop requests pages 1, 2, … up to the requested-page count. Page p is requested at the address ReviewPageUrl gives for it. It returns the records of exactly those pages, in page order and then block order. When no address can be built, every page is skipped and nothing is requested. |
| Scraper.ProductRecords | scraper.py:63-94 | One product's `product_reviews`: the records of the pages actually requested, in page order and then block order. Its properties are CrawlProduct and UnformattableLinkYieldsNothing. |
| Scraper.ScrapeProduct | scraper.py:52-94 | One product pass derives the truncated link and the name, then returns the product's records. |
| Scraper.RowLines | scraper.py:98-100 | Each record becomes one data line, in order. No header line is among them. |
| Scraper.ReviewsCsv.Absent | scraper.py:99 | A file that does not exist has no lines. |
| Scraper.ReviewsCsv.Existing | scraper.py:99 | An existing file keeps its lines. |
| Scraper.ReviewsCsv.AppendRows | scraper.py:99-100 | An append writes the header only when the file did not exist, then adds one line per row after the old lines. The file exists afterwards. |
| Scraper.RowLinesAppend | scraper.py:100 | Data lines of consecutive batches concatenate. |
| Scraper.RunLines | scraper.py:97-100 | The lines a run appends. There are none without records. Otherwise a header comes first when no file existed, then one line per record. Its properties are the lemmas RunLinesStep and HeaderOnce. |
| Scraper.RunLinesStep | scraper.py:97-103 | A product without records adds no lines. Otherwise it adds its rows, preceded by the header only if no file existed and nothing was written before. |
| Scraper.ScrapeManualList | scraper.py:45-103 | After the run the file holds its old lines followed by exactly the run's lines: a header if the file was missing and any record was found, then every record in product order. The file exists exactly when it existed or some record was found. |
| Scraper.RunRecords | scraper.py:51-103 | The run's rows: each product's records, in product order. Its properties are the lemmas RunRecordsInProductOrder and HeaderOnce. |
| Scraper.RunRecordsInProductOrder | scraper.py:51 | A run's records are the records of the products before a given product, then its own, then those of the products after it. |
| Scraper.HeaderOnce | scraper.py:99-100 | A run on an existing file writes no header. A run without a file writes one header before all rows and no other header, and writes nothing at all exactly when no product yields a record. |
| Targets.ScrapeTargets | scraper.py:11-23 | The run over the eleven fixed product links appends exactly the lines `scrape_manual_list` specifies for them. The file exists afterwards exactly when it existed before or some record was found. |
| Reviews.ConcatAppend | scraper.py:51-103 | Concatenating two runs of batches is concatenating their rows. |
| Reviews.ConcatSplit | scraper.py:51 | A batch sits between the rows of the batches before it and those after it. |
| Reviews.ConcatEmpty | scraper.py:97 | The concatenation is empty exactly when every batch is empty. |
| Curator.Dedup | clean_csv.py:21 | Deduplication never adds rows. |
| Curator.DedupDistinct | clean_csv.py:21 | After deduplication no two rows share a review text. |
| Curator.DedupTexts | clean_csv.py:21 | Deduplication loses no distinct review text and invents none. |
| Curator.DedupKeepsFirst | clean_csv.py:21 | The kept rows are the input rows at strictly increasing positions. A position is kept exactly when it is the first occurrence of its text. |
| Curator.DedupOfDistinct | clean_csv.py:21 | Rows with distinct texts are left unchanged. |
| Curator.DedupIdempotent | clean_csv.py:21 | Deduplicating twice is deduplicating once. |
| Curator.DedupPrefix | clean_csv.py:21 | Deduplicating a longer table keeps the deduplicated shorter table as its prefix. |
| Curator.DedupStep | clean_csv.py:21 | One more row is kept exactly when its text has not occurred before. |
| Curator.Frame.constructor | clean_csv.py:11 | The frame holds the loaded rows. |
| Curator.Frame.DropDuplicates | clean_csv.py:21 | The in-place drop replaces the rows with their deduplication. |
| Curator.Frame.Curate | clean_csv.py:21-74 | The script's effect on the frame: deduplicated rows, then the Negative block, then the Neutral block. |
| Curator.Phrases | clean_csv.py:28-44 | Each phrase bank has exactly 15 phrases. |
| Curator.GenerateSynthetic | clean_csv.py:25-57 | The generator returns exactly `count` rows. Each has name "Synthetic Data", date "2025-01-21", verified "System", and rating 1 for Negative or 3 for Neutral. Each row's text is the drawn phrase, a space, and the decimal form of the drawn suffix. |
| Curator.LastSpaceSplit | clean_csv.py:50 | A phrase and a space-free suffix joined by a space determine both halves. |
| Curator.SyntheticTextInjective | clean_csv.py:50 | Two synthetic texts are equal exactly when their phrases are equal and their suffixes are equal. |
| Curator.SyntheticMayCollide | clean_csv.py:46-57 | Two draws with the same phrase index and suffix give two rows with the same text, so a synthetic block need not be duplicate-free. |
| Curator.CleanCsv | clean_csv.py:74 | The final table: the deduplicated rows, then the Negative block, then the Neutral block. Its properties are the lemmas CleanCsvShape and FinalMayRepeat. |
| Curator.CleanCsvShape | clean_csv.py:62-74 | The final table has the unique count plus 1600 rows. Its first rows are the deduplicated real rows, which are distinct. The next 800 are Negative synthetic rows and the last 800 are Neutral synthetic rows. |
| Curator.FinalMayRepeat | clean_csv.py:46-74 | Two Negative draws with the same phrase index and suffix make the final table contain two rows with the same text. |
| Curator.CurateTwice | clean_csv.py:21 | Curating a curated table again keeps the deduplicated real rows as its prefix. |
| Training.SmartLabel | train_model.py:33-45 | Rating 1 gives Negative and rating 3 gives Neutral, whatever the score. For any other rating: Positive exactly when the score is above 0.1, Negative exactly when it is below -0.05, and Neutral exactly when it lies in [-0.05, 0.1]. |
| Training.SmartLabelMonotone | train_model.py:43-45 | For a fixed rating, a higher score never gives a lower label in the order Negative < Neutral < Positive. |
| Training.SyntheticRowsKeepTheirLabel | train_model.py:38-39 | Every synthetic Negative row is labelled Negative, and every synthetic Neutral row is labelled Neutral, whatever the score. |
| Training.TrainClean | train_model.py:21-26 | The training-side cleaner: lower-case, date substitution, badge removal, character filter and strip. Its properties are the lemmas TrainCleanOutput, CleanBadgeAlone, CleanDigitJoinsBadge and TrainCleanNotIdempotent. |
| Training.DatePrefixLength | train_model.py:23 | The date pattern matches 14 characters with a two-digit day, 13 with a one-digit day, or not at all. |
| Training.DateSub | train_model.py:23 | The substitution only removes a prefix. A text that does not start with an upper-case letter is unchanged. |
| Training.DateSubNeverMatches | train_model.py:22-23 | After lower-casing, the date substitution never changes the text. |
| Training.TrainCleanOutput | train_model.py:21-26 | The cleaned text holds only lower-case ASCII letters and whitespace, with no whitespace at either end. |
| Training.CleanDigitJoinsBadge | train_model.py:24-25 | `"verified1 buyer"` cleans to `"verified buyer"`, because the badge is removed before the digit is. |
| Training.CleanBadgeAlone | train_model.py:24-26 | `"verified buyer"` cleans to the empty text. |
| Training.TrainCleanNotIdempotent | train_model.py:21-26 | Cleaning `"verified1 buyer"` twice differs from cleaning it once. |
| Serving.ServeClean | main.py:33-36 | The serving-side cleaner: lower-case, character filter and strip. Its properties are the lemmas ServeCleanOutput, ServeCleanFixes and ServeCleanIdempotent. |
| Serving.ServeCleanOutput | main.py:33-36 | The cleaned text holds only lower-case ASCII letters and whitespace, with no whitespace at either end. |
| Serving.ServeCleanFixes | main.py:33-36 | A text already of that shape is left unchanged. |
| Serving.ServeCleanIdempotent | main.py:33-36 | Cleaning twice is cleaning once. |
| Serving.TrainServeAgree | main.py:33-36 | The serving and training cleaners agree on every text whose lower-cased form does not contain "verified buyer". |
| Serving.TrainServeDiffer | train_model.py:24 | The cleaners disagree on every text whose lower-cased form contains "verified buyer". |
| Serving.TrainServeAgreeIff | main.py:33-36 | The cleaners agree exactly when the lower-cased text does not contain "verified buyer". |
| Serving.TrainServeDisagree | train_model.py:24 | On "verified buyer" the cleaners disagree: training yields the empty text and serving keeps the phrase. |
| Serving.PredictSentiment | main.py:43-65 | Without a model the request fails with status 500 and detail "Model not loaded", and only then. With a model, the response echoes the input text and carries the model's prediction on the serving-cleaned text. |
| Strings.JoinSplit | scraper.py:52 | Joining the pieces of a split with the separator gives back the string. |
| Strings.SplitJoin | scraper.py:59 | Splitting a join of separator-free pieces gives back the pieces. |
| Strings.Split | scraper.py:59 | A split has at least one piece, and no piece contains the separator. It has two or more pieces exactly when the separator occurs. |
| Strings.SplitSecondToLast | scraper.py:59 | The `[-2]` piece is the separator-free text between the last two separators, or between the start and the only separator. |
| Strings.Title | scraper.py:59 | `str.title` on ASCII text. Its properties are the lemmas TitleAt, TitleIdempotent and TitleOfTitleCased. |
| Strings.TitleFrom | scraper.py:59 | Title-casing keeps the length. Each character is cased according to whether the character before it is a letter. |
| Strings.TitleAt | scraper.py:59 | `title()` upper-cases the first letter of each run of letters, lower-cases the other letters, and leaves non-letters unchanged. |
| Strings.TitleIdempotent | scraper.py:59 | Title-casing twice is title-casing once. |
| Strings.TitleOfTitleCased | scraper.py:59 | Title-casing a string whose letters already have their title case changes nothing. |
| Strings.ReplaceAll | scraper.py:80 | `str.replace`: a single left-to-right pass that replaces each leftmost, non-overlapping occurrence. Its properties are the lemmas ReplaceAbsent, ReplaceChars, ReplaceCharRemoves, ReplaceCharAbsent and ReplaceDropsCount. |
| Strings.ReplaceAbsent | scraper.py:80 | Replacing a pattern that does not occur changes nothing. |
| Strings.ReplaceChars | scraper.py:80 | Every character of a replacement result comes from the input or the replacement text. |
| Strings.ReplaceCharRemoves | scraper.py:80 | Replacing a character with text that lacks it removes every occurrence. |
| Strings.ReplaceDropsCount | train_model.py:24 | Deleting a pattern never adds a character of the pattern. It removes at least one of each of its characters when the pattern occurs. |
| Strings.ReplaceCharAbsent | scraper.py:59 | Replacing a character that does not occur changes nothing. |
| Strings.Lower | train_model.py:22 | `str.lower` on ASCII text, character by character. Its properties are the lemmas LowerHasNoUpper and LowerIdentity. |
| Strings.LowerHasNoUpper | train_model.py:22 | Lower-cased text holds no upper-case letter. |
| Strings.LowerIdentity | main.py:34 | Lower-casing text without upper-case letters changes nothing. |
| Strings.KeepLettersAndSpaces | train_model.py:25 | The filter keeps only ASCII letters and whitespace from the input. |
| Strings.KeepCounts | main.py:35 | The filter keeps every letter and whitespace character of the input, as often as it occurs. |
| Strings.KeepIdentity | main.py:35 | The filter leaves text made only of letters and whitespace unchanged. |
| Strings.KeepAppend | train_model.py:25 | Filtering a concatenation is concatenating the filtered parts. |
| Strings.KeepDropsMiddle | train_model.py:25 | Filtering out one non-letter between two kept runs joins the runs. |
| Strings.StripLeft | train_model.py:26 | The result is a suffix of the input that does not start with whitespace. Everything dropped is whitespace. |
| Strings.StripRight | train_model.py:26 | The result is a prefix of the input that does not end with whitespace. Everything dropped is whitespace. |
| Strings.Strip | train_model.py:26 | The stripped text has no whitespace at either end, and each of its characters comes from the input. A text without whitespace at either end is unchanged. |
| Strings.StripSlice | train_model.py:26 | Stripping removes whitespace at the two ends and nothing else. The result is a contiguous slice of the input, and all characters before and after it are whitespace. |
| Strings.StripCounts | main.py:36 | Stripping keeps every character that is not whitespace, as often as it occurred. |
| Strings.Decimal | clean_csv.py:50 | `str(n)` is a non-empty run of decimal digits without a leading zero. |
| Strings.DecimalRoundTrip | scraper.py:56 | Parsing the decimal form of a number gives back the number. |
| Strings.DecimalInjective | clean_csv.py:50 | Different numbers have different decimal forms. |

## Left out

- Selenium, the Chrome driver, `time.sleep` and BeautifulSoup's `find_all`/`decompose`/`get_text`.
  - They are foreign I/O. Their results are the page-outcome and block inputs.
  - The ten outcomes of a product are always given. Those after the last request are never read.
- pandas CSV reading and writing, and `os.path.exists`.
  - The file is an existence flag and a sequence of header and row lines.
  - CSV quoting, the on-disk format, reading the file back, and NaN values are not modelled.
- The outer `try`/`except` of `scrape_manual_list`, which stops the run on a driver or write failure, and `driver.quit()`. These are I/O failures, and the model has no driver.
- Progress logging and `print` output: they have no effect on the data.
- `random.choice` and `random.randint`: their results are parameters constrained to the ranges the calls allow.
- TextBlob: the polarity score is a `real` parameter, and Python floats are treated as exact reals.
- TF-IDF vectorisation, `LogisticRegression`, the train/test split, the metrics, and pickle save/load. These are machine-learning libraries over floats.
- Prediction internals and the confidence score.
  - The loaded model is an abstract function from cleaned text to a sentiment.
  - The vectorizer, `predict_proba` and rounding are not modelled.
- FastAPI routing, the `/` endpoint, `uvicorn`, `webbrowser` and the `Timer` thread are serving plumbing.
- That the eleven fixed links contain no braces is not proved. For each link, whether its page addresses can be built is left to `FormatLiteral`.
- Unicode semantics of `lower`, `title`, `\s`, `strip` and `isspace`: the model is ASCII-only.
- `str(text)` on non-string cells such as NaN: texts are strings.
- Curator.GenerateSynthetic: does not model a `sentiment_type` other than "Negative" and "Neutral". Such a call raises `UnboundLocalError` when `count_needed > 0`, because no phrase bank is bound.
- Curator.GenerateSynthetic: does not model a negative `count_needed`, for which `range` is empty. The count is a `nat`.
- Curator.SyntheticTextInjective: is stated at phrase level ("the phrases are equal"), not phrase-index level. The distinctness of the 15 phrases of a bank is not proved.
- PredictSentiment: as a function it cannot state that the guard runs before cleaning. It states only that a missing model yields the error and nothing else.
- HTTP status handling beyond the 500 error is not modelled. A `not model` on a loaded model object is taken as false.
