# Invoice OCR pipeline and invoice store, modelled in Dafny

This project models the core of an invoice-digitising application in two parts.

The first part is the OCR pipeline of `ocr_pipeine.py`:
- whitespace normalisation of OCR text;
- the five pattern rules that fill the fields `date`, `invoice_id`, `vendor`, `total_amount` and `tax`;
- the choice between the PDF branch and the image branch by file name;
- the assembly of the per-document result: the pages joined with the page-break marker, the first page's fields and the page count.

The second part is the per-user invoice store of `app/database.py`. Its two SQLite tables are sequences of rows held by a class, `InvoiceStore.Database`.

Modules:
- `Common` (`common.dfy`): `Option`, `Result`, bytes, the ASCII character classes and `RunEnd`, the end of a greedy run of one class.
- `TextNormalizer` (`normalize.dfy`): line 41 of the pipeline, and `str.strip()`.
- `FieldRules` (`field_rules.dfy`): each regular expression as a scanner with the semantics of Python's `re.search`:
  - the earliest start position wins;
  - alternatives are tried in order;
  - quantifiers are greedy and backtrack.

  `SearchFrom` is the search loop over positions and `FieldValue` is `match.group(1)`, or `''` when nothing matches.
- `FieldExtractor` (`field_extractor.dfy`): `extract_invoice_fields`, both as the specification function `InvoiceFields` and as the method `ExtractInvoiceFields`, which normalises the text and fills the dictionary rule by rule (`ApplyRules`). It also holds the lemmas about each field and `extract_line_items` (`ExtractLineItems`, which always returns the empty list).
- `OcrPipeline` (`ocr_pipeline.dfy`): `extract_text_from_file` and `process_invoice_file`. Rendering a PDF, opening an image and OCR are parameters that return a value or an error message.
- `InvoiceStore` (`invoice_store.dfy`): the users and invoices tables and the five database operations.

Two behaviours of the code are easy to overlook:
- **Amounts that are not numbers.** The total and tax rules are `[^\d]*([\d,]+\.?\d{0,2})` after a keyword. When no digit follows the keyword anywhere in the text but a comma does, `[^\d]*` backtracks to the last comma. The captured value is then `","`, or `",."` when a dot follows that comma. So a non-empty total or tax starts with a digit, or is exactly one of those two strings (`TotalField`, `TaxField`); it is not always a number.
- **The snippet key.** The stored fields blob keeps the text snippet under the key `raw_text` (app/database.py:72), not `raw_text_snippet`.

## Model

| member | source | states |
|---|---|---|
| TextNormalizer.ReplaceNewlines | ocr_pipeine.py:41 | same length; each `\n` becomes a space and every other character stays |
| TextNormalizer.CollapseSpaces | ocr_pipeine.py:41 | the only whitespace left is the plain space; no two whitespace characters are adjacent; the text is empty only if the input is; whitespace at either end exactly when the input had it there |
| TextNormalizer.Strip | ocr_pipeine.py:36 | the result is a slice `s[a..b]` with only whitespace before `a` and after `b`, and it neither starts nor ends with whitespace |
| TextNormalizer.Normalize | ocr_pipeine.py:41 | the normalised text has only single spaces, never two whitespace characters in a row, none at either end, and no newline |
| TextNormalizer.NormalizeKeepsContent | ocr_pipeine.py:41 | with all whitespace removed, the normalised text equals the input: only whitespace is changed, and nothing is reordered |
| TextNormalizer.NormalizedCharsFromInput | ocr_pipeine.py:41 | every non-whitespace character of the normalised text occurs in the input |
| TextNormalizer.NormalizeCanonical | ocr_pipeine.py:41 | text already in canonical form is left unchanged |
| TextNormalizer.NormalizeIdempotent | ocr_pipeine.py:41 | normalising twice gives the same as normalising once |
| TextNormalizer.NormalizeKeepsWords | ocr_pipeine.py:41 | normalising keeps the words: splitting the normalised text on whitespace gives the same list of words as splitting the input |
| FieldRules.Repeat | ocr_pipeine.py:52 | greedy `cls{lo,hi}`: consumes lo to hi characters of the class and stops at the bound, at the end or at a character outside the class; fails only when fewer than lo are available |
| FieldRules.WordBoundary | ocr_pipeine.py:52 | `\b` at i: inside the text, exactly one of the characters on either side is a word character; at the start, the first character is one; at the end, the last character is one |
| FieldRules.DayFirstAt | ocr_pipeine.py:52 | a match of the day-first alternative is a date shape: 6 to 10 characters, digits except for two `/` or `-` separators, neither at an end |
| FieldRules.YearFirstAt | ocr_pipeine.py:52 | the same date shape for the year-first alternative |
| FieldRules.DayFirstAtSpec | ocr_pipeine.py:52 | the day-first scan ends at e exactly when the text from p reads 1 or 2 digits, a `/` or `-`, 1 or 2 digits, a separator and 2 to 4 digits ending at e, with `\b` at e |
| FieldRules.YearFirstAtSpec | ocr_pipeine.py:52 | the year-first scan ends at e exactly when the text from p reads 4 digits, a separator, 1 or 2 digits, a separator and 1 or 2 digits ending at e, with `\b` at e |
| FieldRules.DateReadingsExclusive | ocr_pipeine.py:52 | no text can be read both day first and year first at the same position, so the alternation order never decides between two readings |
| FieldRules.DateAt | ocr_pipeine.py:52 | the date rule at a position: group 1 starts there and is a date shape inside the text |
| FieldRules.DateAtSpec | ocr_pipeine.py:52 | the date rule at p matches exactly the span p..e for which `\b` holds at p and the text p..e is a day-first or year-first date ending at a word boundary |
| FieldRules.KeywordEnd | ocr_pipeine.py:57 | a case-insensitive keyword matches exactly when it fits and compares equal, and the match ends right after it |
| FieldRules.CaselessAt | ocr_pipeine.py:57 | the IGNORECASE keyword test holds exactly when the keyword fits at the position and every character equals the keyword's, ignoring case |
| FieldRules.IdAfter | ocr_pipeine.py:57 | after the separators `[\s#:]*`, all of which it takes, group 1 is 6 to 20 letters of either case, digits or hyphens, and stops at 20 characters or at the first character outside the class |
| FieldRules.IdAfterSpec | ocr_pipeine.py:57 | the scan after a keyword gives exactly the span g..e where the run of separators ends at g and 6 to 20 id characters follow up to e, with e at 20 characters, the end of the text or a non-id character |
| FieldRules.InvoiceIdAt | ocr_pipeine.py:57 | the invoice-id rule at a position: group 1 lies at least 3 characters after it, has the id shape, and needs `inv`, in any case, at that position |
| FieldRules.IdAfterKeywordSpec | ocr_pipeine.py:57 | one keyword alternative followed by the id: it matches exactly when the keyword occurs at p in any case and an id token follows it |
| FieldRules.InvoiceIdAtSpec | ocr_pipeine.py:57 | the invoice-id rule at p gives exactly the id token after `invoice` when there is one, and otherwise the id token after `inv` |
| FieldRules.CapWordEnd | ocr_pipeine.py:62 | `[A-Z][a-z]{2,}` matches exactly when an upper-case letter and two lower-case letters come next; the match is the whole run of lower-case letters |
| FieldRules.MoreWords | ocr_pipeine.py:62 | the further vendor words end inside the text, at or after where they start |
| FieldRules.MoreWordsStops | ocr_pipeine.py:62 | `(?:\s+[A-Z][a-z]{2,}){0,n}` takes no word exactly when n is 0 or no whitespace followed by a capitalised word comes next; when it takes words it stops at the end of a whole word |
| FieldRules.VendorAt | ocr_pipeine.py:62 | `^` anchors the vendor rule at position 0; it matches exactly when a capitalised word starts the text; the group then begins at 0 and ends where no lower-case letter follows |
| FieldRules.AmountEnd | ocr_pipeine.py:67 | `[\d,]+\.?\d{0,2}` takes the longest piece of amount shape from that position: digits and commas, then at most one dot and two digits |
| FieldRules.BackOff | ocr_pipeine.py:67 | backtracking out of `[^\d]*` finds the last digit or comma at or before the point it reached, and fails exactly when there is none |
| FieldRules.AmountAfter | ocr_pipeine.py:67 | the amount part after a keyword: it matches exactly when a digit or a comma follows; a following digit makes the value start at the first digit; otherwise the value is `","` or `",."` at the last comma |
| FieldRules.AmountAfterSpec | ocr_pipeine.py:67 | the amount scan after q gives exactly the amount group: the longest amount from the first digit after q, or from the last comma when no digit follows |
| FieldRules.AmountGroupUnique | ocr_pipeine.py:67 | there is at most one amount group after a position |
| FieldRules.PhraseEnd | ocr_pipeine.py:67 | a phrase such as `amount\s+due` matches only when its first word does, and ends after it |
| FieldRules.PhraseEndSpec | ocr_pipeine.py:67 | the phrase scan ends at e exactly when the text from p spells the phrase's words in order, ignoring case, with one or more whitespace characters between them, up to e |
| FieldRules.AmountAfterPhrase | ocr_pipeine.py:67 | one keyword phrase followed by an amount: it matches exactly when the phrase occurs at the position with a digit or comma somewhere after it, and the value is the amount group after the phrase |
| FieldRules.AmountAt | ocr_pipeine.py:67 | the alternation of phrases followed by an amount: the value is an amount-shaped piece of the text at or after the position |
| FieldRules.AmountAtFound | ocr_pipeine.py:67 | an amount rule matches at a position exactly when one of its phrases occurs there with a digit or comma somewhere after it |
| FieldRules.AmountAtSpec | ocr_pipeine.py:67 | the alternation gives exactly the amount group after the first phrase, in the rule's order, that has a digit or comma after it |
| FieldRules.TotalAt | ocr_pipeine.py:67 | the total rule at a position, with the amount guarantees of `AmountAt` |
| FieldRules.TotalAtSpec | ocr_pipeine.py:67 | the total rule matches at p exactly when `total`, `amount due`, `grand total` or `balance due` occurs there with a digit or comma after it, and then gives the amount after the first of those phrases that has one |
| FieldRules.TaxAt | ocr_pipeine.py:72 | the tax rule at a position, with the amount guarantees of `AmountAt` |
| FieldRules.TaxAtSpec | ocr_pipeine.py:72 | the same for `tax`, `vat` and `gst` |
| FieldRules.SearchFrom | ocr_pipeine.py:52-74 | `re.search`: the match found is at the earliest position from which the pattern matches, no earlier position matches, and no match means none anywhere |
| FieldRules.FieldValue | ocr_pipeine.py:53-54 | `group(1)` or `''`: the value is empty exactly when the pattern matches at no position of the text |
| FieldRules.FirstMatch | ocr_pipeine.py:53-54 | a non-empty value comes from the first position where the pattern matches: it is group 1 of the match there, and the pattern matches at no earlier position |
| FieldRules.FieldValueFound | ocr_pipeine.py:53-54 | a pattern that matches at some position gives a non-empty value |
| FieldExtractor.InvoiceFields | ocr_pipeine.py:43-49 | the result always has exactly the five keys date, vendor, invoice_id, tax and total_amount |
| FieldExtractor.ApplyRule | ocr_pipeine.py:53-54 | one `if match:` assignment: the still-empty field becomes the rule's first group 1, or stays `''`; all other keys are unchanged |
| FieldExtractor.ApplyRules | ocr_pipeine.py:43-74 | starting from five empty fields, the five rules in order leave each field holding its own rule's value |
| FieldExtractor.ExtractInvoiceFields | ocr_pipeine.py:39-76 | the dictionary built from the normalised text equals `InvoiceFields` of the text and has exactly the five keys |
| FieldExtractor.FieldsByRule | ocr_pipeine.py:51-74 | each field is the value of its own rule on the normalised text, so a rule without a match leaves its field `''` |
| FieldExtractor.DateField | ocr_pipeine.py:52-54 | a non-empty date is a substring of the normalised text, 6 to 10 characters of digits with exactly two `/` or `-` separators |
| FieldExtractor.NoDigitNoDate | ocr_pipeine.py:52 | on text without a digit the date rule finds nothing |
| FieldExtractor.DateNeedsDigit | ocr_pipeine.py:52-54 | an input without a digit gives date `''` |
| FieldExtractor.DateFieldFirst | ocr_pipeine.py:52-54 | the date is non-empty exactly when the normalised text holds a date token, and it is then the text of the token at the earliest position that has one |
| FieldExtractor.InvoiceIdField | ocr_pipeine.py:57-59 | a non-empty invoice id is a substring of the normalised text, 6 to 20 ASCII letters of either case, digits or hyphens |
| FieldExtractor.InvoiceIdFieldFirst | ocr_pipeine.py:57-59 | the invoice id is non-empty exactly when the normalised text holds an invoice-id token, and it is then group 1 of the token at the earliest position that has one |
| FieldExtractor.MoreWordsShape | ocr_pipeine.py:62 | on canonical text the words the vendor rule collects are one to n + 1 capitalised words separated by single spaces, and fewer than n + 1 only when no further capitalised word follows |
| FieldExtractor.VendorField | ocr_pipeine.py:62-64 | the vendor is non-empty exactly when the normalised text starts with `[A-Z][a-z][a-z]`; it is then a prefix of that text made of 1 to 4 whole capitalised words separated by single spaces, with fewer than 4 only when no further capitalised word follows |
| FieldExtractor.TotalField | ocr_pipeine.py:67-69 | a non-empty total is a substring of the normalised text of amount shape, starting with a digit unless it is `","` or `",."` |
| FieldExtractor.TaxField | ocr_pipeine.py:72-74 | the same for tax |
| FieldExtractor.TotalFieldFirst | ocr_pipeine.py:67-69 | a non-empty total is the amount group after the first total phrase that has one, at the earliest position where any total phrase is followed by a digit or comma |
| FieldExtractor.TaxFieldFirst | ocr_pipeine.py:72-74 | the same for tax |
| FieldExtractor.AmountFieldFound | ocr_pipeine.py:67-74 | the search for an amount rule succeeds exactly when one of its phrases occurs somewhere with a digit or comma after it |
| FieldExtractor.TotalFound | ocr_pipeine.py:67-69 | total_amount is non-empty exactly when `total`, `amount due`, `grand total` or `balance due` occurs in the normalised text, inside a word or not, with a digit or comma after it |
| FieldExtractor.TaxFound | ocr_pipeine.py:72-74 | tax is non-empty exactly when `tax`, `vat` or `gst` occurs, inside a word or not, with a digit or comma after it |
| FieldExtractor.AmountsNeedDigitOrComma | ocr_pipeine.py:67-74 | an input with neither digit nor comma gives total_amount and tax `''` |
| FieldExtractor.ExtractLineItems | ocr_pipeine.py:79-82 | line-item extraction returns the empty list for every text |
| OcrPipeline.LowerString | ocr_pipeine.py:90 | `lower()` keeps the length and lower-cases each character on its own |
| OcrPipeline.IsPdfName | ocr_pipeine.py:90 | a name takes the PDF branch exactly when it ends in `.` and then p, d, f, each in either case |
| OcrPipeline.RecognisePages | ocr_pipeine.py:94-96 | the PDF loop succeeds exactly when OCR succeeds on every image, and then page i is the stripped OCR text of image i |
| OcrPipeline.RecogniseFirstFailure | ocr_pipeine.py:92-98 | when OCR first fails on image i, the loop reports that image's error |
| OcrPipeline.PagesOf | ocr_pipeine.py:86-108 | every page is stripped; a non-PDF gives exactly one page and a PDF one page per rendered image; a failure carries the prefix `PDF processing failed: ` or `Image processing failed: ` for its branch |
| OcrPipeline.PdfPages | ocr_pipeine.py:90-98 | a PDF fails with the render error or with the first OCR error, each behind the PDF prefix; otherwise page i is image i's stripped text |
| OcrPipeline.ImagePage | ocr_pipeine.py:99-106 | any other file fails with the open or OCR error behind the image prefix, or gives exactly one page, its stripped text |
| OcrPipeline.ExtractTextFromFile | ocr_pipeine.py:86-108 | the loop that appends page by page returns exactly the pages or the error of `PagesOf` |
| OcrPipeline.Join | ocr_pipeine.py:116 | `sep.join(pages)`: no pages give the empty text; otherwise the text starts with the first page and its length is that of all pages plus one separator between each two |
| OcrPipeline.JoinPage | ocr_pipeine.py:116 | in the joined text page i sits at its offset, after the earlier pages and one separator each, and the last page ends the text |
| OcrPipeline.JoinBreak | ocr_pipeine.py:116 | between page i and page i + 1 the joined text holds exactly the separator |
| OcrPipeline.JoinPagesEmpty | ocr_pipeine.py:116-129 | the joined raw text is empty only for no pages or one empty page, so `or ""` changes nothing |
| OcrPipeline.Report | ocr_pipeine.py:125-132 | the filename is echoed and page_count is the number of pages; the fields have the five keys when there are pages; with no pages the fields are `{}` and the raw text is empty |
| OcrPipeline.PageFields | ocr_pipeine.py:118-122 | one entry per page, and the first is the first page's fields |
| OcrPipeline.AssembleReport | ocr_pipeine.py:114-132 | the loop over all pages produces the report of `Report`: the pages joined with the marker, page 0's fields and the page count |
| OcrPipeline.ProcessInvoiceFile | ocr_pipeine.py:111-132 | an OCR failure propagates unchanged; otherwise the result is the report of the pages, with page_count 1 for a non-PDF |
| InvoiceStore.NextUserId | app/database.py:59-60 | a new user's rowid is positive and larger than every existing id |
| InvoiceStore.LookupUser | app/database.py:53-54 | no result exactly when no row has the name; a result is the id of a row with that name |
| InvoiceStore.GetOrCreate | app/database.py:48-64 | the users table is unchanged or grows by exactly one row holding the name and the returned id; the name has the returned id afterwards; a row is added only for a name no user had, with an id larger than every existing one |
| InvoiceStore.GetOrCreateValid | app/database.py:48-64 | the table keeps ascending ids and unique names, and the name now maps to the returned id; a new name appends one row whose id no existing user has; a known name changes nothing |
| InvoiceStore.LookupUnique | app/database.py:20 | with unique names, the row holding a name decides the lookup |
| InvoiceStore.GetOrCreateIdempotent | app/database.py:48-64 | a second call with the same name returns the same id and adds no user |
| InvoiceStore.NextInvoiceId | app/database.py:80-90 | a new invoice's rowid is positive and larger than every existing id |
| InvoiceStore.Truncate | app/database.py:79 | Python `s[:n]`: the first min(len, n) characters, a prefix of the input |
| InvoiceStore.DuplicateIds | app/database.py:74 | succeeds exactly when every entry is an object with an `id`, and lists those ids in order |
| InvoiceStore.StoredFields | app/database.py:69-75 | the blob has the extracted keys plus page_count, raw_text, validation and duplicates; other fields are kept; page_count defaults to 1, raw_text is the raw text cut to 500 characters, validation defaults to `{}`, and duplicates are the ids in order; it fails exactly when the duplicates cannot be read |
| InvoiceStore.SavedRow | app/database.py:80-90 | the inserted row gets the next rowid |
| InvoiceStore.FindInvoice | app/database.py:129-130 | no row exactly when no row has the id; a found row has that id and is in the table |
| InvoiceStore.AppendRow | app/database.py:80-90 | appending a row with a larger id keeps the ids ascending, makes the row findable by its id and changes no other lookup |
| InvoiceStore.FindAfterAppend | app/database.py:129-130 | with one row added at the end, its id finds it and other ids find what they did before |
| InvoiceStore.Detail | app/database.py:139-146 | the returned record carries the row's id, filename, upload time, raw text, fields and bytes |
| InvoiceStore.Summary | app/database.py:110-119 | a listing entry carries the row's id, filename and upload time; vendor, total_amount and date are the stored values, or `—` when the key is missing |
| InvoiceStore.SavedThenFound | app/database.py:67-92 | a saved invoice read back by its id has the saved filename, bytes and fields blob, and its raw text cut to 1000 characters |
| InvoiceStore.Owned | app/database.py:101-106 | `WHERE user_id = ?` keeps exactly the user's rows |
| InvoiceStore.InsertByTime | app/database.py:105 | inserting adds exactly that row: the multiset of rows grows by one |
| InvoiceStore.InsertByTimeSorted | app/database.py:105 | inserting into a newest-first list keeps it newest first |
| InvoiceStore.ByTimeDesc | app/database.py:105 | `ORDER BY upload_time DESC`: newest first and a permutation of the rows |
| InvoiceStore.UserRows | app/database.py:101-108 | the rows listed are exactly the user's rows, each once, newest first |
| InvoiceStore.Kept | app/database.py:153-156 | a row stays exactly when its id is not listed or it belongs to another user |
| InvoiceStore.KeptAscending | app/database.py:153-156 | deletion keeps the remaining ids ascending |
| InvoiceStore.KeptIdempotent | app/database.py:148-158 | deleting the same ids a second time removes nothing more |
| InvoiceStore.KeptNone | app/database.py:152-156 | an empty id list, `IN ()`, deletes nothing |
| InvoiceStore.Database.constructor | app/database.py:16-36 | both tables start empty |
| InvoiceStore.Database.GetOrCreateUser | app/database.py:48-64 | the new users table and the returned id are those of `GetOrCreate`; the tables stay valid and invoices are untouched |
| InvoiceStore.Database.SaveInvoice | app/database.py:67-92 | it succeeds exactly when the blob can be built, and then appends exactly the saved row; on failure the table is unchanged; users are untouched |
| InvoiceStore.Database.GetUserInvoices | app/database.py:95-122 | one summary per listed row, in the order of `UserRows` |
| InvoiceStore.Database.GetInvoiceById | app/database.py:125-146 | None exactly when no row has the id; otherwise the detail of that row |
| InvoiceStore.Database.DeleteInvoicesByIds | app/database.py:148-158 | the invoices table becomes `Kept`: the user's listed rows are gone, everything else stays in order, and users are untouched |

## Left out

- Character classes are ASCII only. Python's `\s`, `\d`, `\w` and `\b` on `str`, and IGNORECASE matching, also cover non-ASCII characters. For example, U+017F matches `s` and U+212A matches `k` under IGNORECASE, and U+00A0 is whitespace. `lower()` is ASCII only too.
- Image preprocessing and Tesseract (`preprocess_image`, `extract_text`, ocr_pipeine.py:13-36) are the `Recogniser` parameter, applied before `strip()`. They are foreign libraries with floating-point pixel maths.
- PDF rendering (`convert_from_bytes`) and image decoding (`Image.open`) are parameters returning images or an error message. The 200 DPI setting is not modelled.
- OcrPipeline.PagesOf: an exception's `str(e)` is the error string the parameter returns. Exceptions raised anywhere else are not modelled.
- `create_download_link` (ocr_pipeine.py:135-139) is byte-buffer I/O.
- The line items `process_invoice_file` collects for every page are never used, so the model does not keep them.
- SQLite connection handling, `init_db`'s `CREATE TABLE IF NOT EXISTS` on an existing database, and the `ALTER TABLE` fallback (app/database.py:12-46) are left out. The constructor starts from empty tables.
- `datetime.now().isoformat()` is a natural-number parameter. ISO timestamps from one clock sort in time order.
- `json.dumps` and `json.loads` are the identity: the fields column holds the JSON value. `Json` has no floating-point numbers.
- A `result` without `"fields"`, and a `raw_text` that is not a string, raise in Python. Neither is modelled: `AnalysisResult` always has fields, and its raw text is a string when present.
- InvoiceStore.NextUserId: does not model SQLite's choice of a random free rowid once the largest rowid reaches 2^63 - 1.
- InvoiceStore.NextInvoiceId: the same rowid limit is not modelled.
- InvoiceStore.ByTimeDesc: rows with equal upload times keep table order. SQLite leaves their order unspecified, so the model fixes one of the allowed orders.
- The foreign key from `invoices.user_id` to `users.id` is not enforced by SQLite by default, so saving for an unknown user id is allowed here too.
- Leaving the caller's `result["fields"]` unchanged needs no statement: Dafny maps are values, and `copy()` then `update` builds a new map.
