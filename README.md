# Resume export and publishing scripts of a portfolio site, in Dafny

This project models the three pieces of the portfolio site that have logic of their own:

- **The in-browser resume export** (`src/utils/pdfGenerator.ts`, module `PdfGenerator`). The export:
  - hides the elements that must not be printed, recording each one's inline display;
  - injects a print stylesheet with id `pdf-styles`;
  - merges the caller's rasteriser options over the defaults;
  - has the page rasterised, then undoes the hiding and the stylesheet;
  - cuts the image into A4 pages, one image placement per page;
  - sets the document properties and saves under the requested name.

  The page is a `Document` object: a fixed list of elements, the inline `display` of each (a `seq<string>` the methods reassign) and the style nodes of the head. The hiding and restoring methods are proved against left folds (`HideAll`, `RestoreAll`) whose properties are lemmas. The page loop is a `while` loop over exact reals, proved against `PageCount` and `Offset`.
- **The command-line generator** (`scripts/generate-cv-pdf.js`, module `CvPdfScript`). It covers:
  - the choice between the production site and the local server;
  - the file written and the two files of the multi-version mode, which changes the configured file name in place;
  - the cleanup that keeps the three lexicographically greatest dated copies;
  - the flag dispatch of `main`.

  The configured file name and the output directory are the fields of a `CvGenerator` object. The HTTP probes and the browser's success are inputs.
- **The sitemap and robots.txt generator** (`scripts/generate-sitemap.js`, module `SitemapScript`). The sitemap is built by an appending loop, proved equal to `SitemapXml`. A reader (`ReadSitemap`) is proved to recover exactly the page list, in order, with `loc` = site + page url and the one date as every `lastmod`, from the sitemap of any pages whose fields, with the site address, contain no `>`, stamped with a date without `>`. The site's own five pages and every ISO-8601 clock reading meet that condition.

Shared modules:
- `Wrappers`: `Option`, `Result`.
- `Strings`: prefix, suffix and occurrence predicates.
- `Timestamps`: the date part of an ISO timestamp and the dated resume file name.
- `CodeUnitOrder`: the string order of JavaScript's default `sort`, an insertion sort and `reverse`.

## Model

| member | source | states |
|---|---|---|
| Timestamps.DatePart | scripts/generate-sitemap.js:20-22 | the result is a prefix of the timestamp that contains no `T` and is followed by `T` when shorter than the timestamp (`split('T')[0]`) |
| Timestamps.IsoDatePart | scripts/generate-sitemap.js:20-22 | on an ISO-8601 timestamp the date part is exactly its first ten characters, `YYYY-MM-DD` |
| Timestamps.DatedResumeFilename | src/utils/pdfGenerator.ts:144 | the name starts with `Vu_Le_Resume_`, ends with `.pdf`, and holds exactly the date part in between |
| CodeUnitOrder.BelowTotal | scripts/generate-cv-pdf.js:320 | the string order used by `sort()` relates any two names |
| CodeUnitOrder.BelowTransitive | scripts/generate-cv-pdf.js:320 | the string order is transitive |
| CodeUnitOrder.BelowAntisymmetric | scripts/generate-cv-pdf.js:320 | two names each ordered before the other are equal |
| CodeUnitOrder.Insert | scripts/generate-cv-pdf.js:320 | inserting into an ascending list keeps it ascending and adds exactly that name |
| CodeUnitOrder.Sort | scripts/generate-cv-pdf.js:320 | `sort()` returns an ascending permutation of its input |
| CodeUnitOrder.Reverse | scripts/generate-cv-pdf.js:320 | `reverse()` puts element i at position n-1-i |
| CodeUnitOrder.ReverseMultiset | scripts/generate-cv-pdf.js:320 | reversing keeps every name and its number of occurrences |
| CodeUnitOrder.SortThenReverse | scripts/generate-cv-pdf.js:320 | `sort().reverse()` is a descending permutation of the names |
| PdfGenerator.Matches | src/utils/pdfGenerator.ts:180 | `button:not(.print-keep)` selects exactly the elements with tag `BUTTON` and without class `print-keep`, and a type selector only selects elements of its tag |
| PdfGenerator.NonPrintableHits | src/utils/pdfGenerator.ts:176-183 | an element is matched by one of the six non-printable selectors exactly when it is a `nav`, has class `no-print`, `scroll-indicator` or `loading-spinner`, has attribute `data-no-print`, or is a button without class `print-keep` |
| PdfGenerator.QueryAll | src/utils/pdfGenerator.ts:186 | the query yields only indices of elements of the page |
| PdfGenerator.QueryAllFacts | src/utils/pdfGenerator.ts:186 | `querySelectorAll` returns every matching element, only matching ones, without repetition, in document order |
| PdfGenerator.QueryAllMatching | src/utils/pdfGenerator.ts:186 | every element the query returns matches the selector |
| PdfGenerator.QueryAllComplete | src/utils/pdfGenerator.ts:186 | every element that matches the selector is returned |
| PdfGenerator.QueryAllIncreasing | src/utils/pdfGenerator.ts:186 | the query returns elements in strictly increasing document order, so none twice |
| PdfGenerator.QueryAllSound | src/utils/pdfGenerator.ts:186 | an element the query returns matches the selector |
| PdfGenerator.MatchedBy | src/utils/pdfGenerator.ts:185-187 | every element visited is an element of the page |
| PdfGenerator.MatchedByCovers | src/utils/pdfGenerator.ts:176-187 | the elements visited by the sanitiser are exactly those some non-printable selector matches |
| PdfGenerator.RecordedAppend | src/utils/pdfGenerator.ts:190-193 | pushing a record adds exactly its element to the recorded set |
| PdfGenerator.HideAll | src/utils/pdfGenerator.ts:187-196 | hiding keeps one display per element and records only elements of the page |
| PdfGenerator.HideAllFacts | src/utils/pdfGenerator.ts:185-197 | after hiding, every visited element is `none` and no other changed; a record names a visited element that was not `none`, with its exact original display; every such element is recorded exactly once |
| PdfGenerator.HideAllSnoc | src/utils/pdfGenerator.ts:188-195 | visiting one more element hides and records it exactly when its display is not yet `none` |
| PdfGenerator.HideCount | src/utils/pdfGenerator.ts:189-194 | the number of records is the number of distinct visited elements that were not `none` |
| PdfGenerator.DistinctCount | src/utils/pdfGenerator.ts:190-193 | records naming pairwise different elements are as many as the elements they name |
| PdfGenerator.RestoreAll | src/utils/pdfGenerator.ts:205-209 | restoring changes no element that has no record |
| PdfGenerator.RestoreRecorded | src/utils/pdfGenerator.ts:206-208 | each recorded element gets back exactly its recorded display |
| PdfGenerator.HideThenRestore | src/utils/pdfGenerator.ts:172-209 | hiding followed by restoring its records gives every element its display from before, including elements that were already `none` |
| PdfGenerator.FindById | src/utils/pdfGenerator.ts:264 | `getElementById` finds the first node with the id, and reports none exactly when no node has it |
| PdfGenerator.CountIdAppend | src/utils/pdfGenerator.ts:257 | appending nodes adds their count of the id |
| PdfGenerator.CountIdNone | src/utils/pdfGenerator.ts:264 | a head with no node of the id counts zero of them |
| PdfGenerator.CountIdZero | src/utils/pdfGenerator.ts:264 | a zero count means no node has the id |
| PdfGenerator.RemoveFirstById | src/utils/pdfGenerator.ts:263-268 | with no `pdf-styles` node removal changes nothing; otherwise the first such node is removed and all other nodes stay, in order |
| PdfGenerator.AddThenRemoveStyles | src/utils/pdfGenerator.ts:214-268 | adding the print stylesheet to a head without one and removing it gives back the head as it was |
| PdfGenerator.MergeOptions | src/utils/pdfGenerator.ts:55 | the merged keys are the union; the caller's value wins on every key it gives and the default holds on every other |
| PdfGenerator.IgnoreForResume | src/utils/pdfGenerator.ts:157-163 | the resume's renderer filter skips exactly what the selectors `.no-print`, `script` and `style` select |
| PdfGenerator.ResumeOptionsMerged | src/utils/pdfGenerator.ts:147-164 | the resume options restate every default, so merging keeps them, and add the element filter, which no default has |
| PdfGenerator.NoPrintHiddenAndIgnored | src/utils/pdfGenerator.ts:157-163 | an element with class `no-print` is both hidden by the sanitiser and skipped by the resume's renderer filter |
| PdfGenerator.ImageHeight | src/utils/pdfGenerator.ts:78-80 | the image height is the canvas height scaled by 210 over the canvas width |
| PdfGenerator.PageCount | src/utils/pdfGenerator.ts:97-112 | the page count n is the one with (n-1)·295 ≤ h < n·295, i.e. floor(h/295)+1 |
| PdfGenerator.PlacePages | src/utils/pdfGenerator.ts:81-112 | the loop ends and places exactly PageCount(h) images, page k at x 0, y −k·295, width 210, height h |
| PdfGenerator.EachRowOnOnePage | src/utils/pdfGenerator.ts:97-112 | every row of the image is visible on exactly one page, and that page is produced |
| PdfGenerator.LastPageBlankIffWholePages | src/utils/pdfGenerator.ts:100 | the last placement shows nothing of the image exactly when the height is a whole multiple of 295 |
| PdfGenerator.ThreePageCapture | src/utils/pdfGenerator.ts:78-112 | a 1200×3600 capture is 630 mm high and gives three pages |
| PdfGenerator.FailedExportLeavesNavHidden | src/utils/pdfGenerator.ts:134-137 | after a failed export as written, a visible `nav` is left hidden |
| PdfGenerator.Document.constructor | src/utils/pdfGenerator.ts:34-38 | a page with one display per element and the given head |
| PdfGenerator.Document.HideNonPrintableElements | src/utils/pdfGenerator.ts:172-200 | the new displays and the returned records are those of one sanitising pass over the non-printable selectors' matches, selector by selector |
| PdfGenerator.Document.HideEach | src/utils/pdfGenerator.ts:187-196 | hiding the matches of one selector extends the pass by exactly those elements |
| PdfGenerator.Document.RestoreHiddenElements | src/utils/pdfGenerator.ts:205-209 | the new displays are the old ones with each record put back in order |
| PdfGenerator.Document.AddPdfStyles | src/utils/pdfGenerator.ts:214-258 | the head gains exactly the `pdf-styles` node, at the end |
| PdfGenerator.Document.RemovePdfStyles | src/utils/pdfGenerator.ts:263-268 | the head loses its first `pdf-styles` node, if it has one |
| PdfGenerator.Document.GeneratePdf | src/utils/pdfGenerator.ts:34-138 | as written. Once the rasteriser succeeds the displays are as before and the head is the old head with the stylesheet appended and then the first `pdf-styles` node removed (the old head itself when it had no such node); if building or saving the document then throws, the error message is returned, otherwise the saved document has the requested name, the resume properties and the page placements. On a rasteriser failure the error message is returned with the elements still hidden and the stylesheet still in the head |
| PdfGenerator.Document.GeneratePdfWithCleanup | src/utils/pdfGenerator.ts:34-138 | corrected: the same export, with the displays restored and the stylesheet removed on every path; the error message is returned when the rasteriser or the document step fails; the head is the old head with the stylesheet appended and the first `pdf-styles` node removed |
| PdfGenerator.Document.GenerateDefaultPdf | src/utils/pdfGenerator.ts:34-38 | called without arguments the export uses the default options and saves as `Vu_Le_Resume.pdf` when the document step succeeds; a rasteriser failure leaves the page sanitised as in `GeneratePdf`, a document-step failure returns the error message with the page restored |
| PdfGenerator.Document.GenerateResumePdf | src/utils/pdfGenerator.ts:143-167 | as written, through `GeneratePdf` with the resume options: once the rasteriser succeeds the displays are as before, and the document is saved as `Vu_Le_Resume_<date>.pdf` with PageCount pages unless the document step throws, which returns the error message; on a rasteriser failure the error message is returned, the non-printable elements stay hidden and the stylesheet stays in the head |
| PdfGenerator.Document.GenerateResumePdfWithCleanup | src/utils/pdfGenerator.ts:143-167 | corrected: the resume download through `GeneratePdfWithCleanup`, so the displays are as before on every path |
| CvPdfScript.ForcedProduction | scripts/generate-cv-pdf.js:73 | `--production` always forces; the environment variable forces only when set to a non-empty string |
| CvPdfScript.SelectTarget | scripts/generate-cv-pdf.js:73-91 | a target exists exactly when production answers or, unforced, the local server does. Production is taken whenever it answers. Local only when unforced and production is down. The error names the forced case |
| CvPdfScript.IsDatedResume | scripts/generate-cv-pdf.js:312-316 | the cleanup considers exactly the names `Vu_Le_Resume_<something>.pdf`; the standard name is excluded because it is shorter than that form |
| CvPdfScript.DatedResumes | scripts/generate-cv-pdf.js:312-316 | the filter keeps only dated copies, each an entry of the directory |
| CvPdfScript.NewestFirst | scripts/generate-cv-pdf.js:320 | the candidates sorted from the greatest name down, a permutation of the dated copies |
| CvPdfScript.FilesToDelete | scripts/generate-cv-pdf.js:319-321 | all but three of the dated copies are deleted when there are more than three, none otherwise, each taken from the dated copies |
| CvPdfScript.FilesKept | scripts/generate-cv-pdf.js:319-321 | three dated copies are kept when there are more, all of them otherwise, each taken from the dated copies |
| CvPdfScript.FilterSeparatesNames | scripts/generate-cv-pdf.js:296-301 | the standard file never passes the cleanup filter and the dated file always does |
| CvPdfScript.DatedResumesCount | scripts/generate-cv-pdf.js:312-316 | the filter keeps each dated copy as often as it occurs and nothing else |
| CvPdfScript.SplitDescending | scripts/generate-cv-pdf.js:320-321 | slicing a descending list splits its names, none of the tail above any of the head |
| CvPdfScript.CleanupKeepsGreatestThree | scripts/generate-cv-pdf.js:319-321 | kept and deleted copies partition the dated copies; nothing is deleted with at most three; at most three are kept; every deleted name sorts before every kept one |
| CvPdfScript.CleanupDeletesOnlyDatedCopies | scripts/generate-cv-pdf.js:311-327 | only dated copies present in the directory are deleted |
| CvPdfScript.WithoutCount | scripts/generate-cv-pdf.js:323-327 | unlinking removes every occurrence of the deleted names and keeps every other entry |
| CvPdfScript.WithoutNothing | scripts/generate-cv-pdf.js:323-327 | unlinking no name leaves the directory as it is |
| CvPdfScript.WithoutOneMore | scripts/generate-cv-pdf.js:323-327 | unlinking the names one by one is unlinking them all |
| CvPdfScript.RemainingDated | scripts/generate-cv-pdf.js:319-327 | in a directory without repeated names, deleting one part of the dated copies leaves exactly the other part |
| CvPdfScript.CleanupLeavesKept | scripts/generate-cv-pdf.js:310-329 | after the cleanup the dated copies left are exactly the kept ones: all of them when at most three, otherwise the three greatest |
| CvPdfScript.Dispatch | scripts/generate-cv-pdf.js:335-360 | with no arguments one file is generated; each mode other than the single generation needs its flag among the arguments, and the single and multi modes run only without `--help`, `-h` and `--clean` |
| CvPdfScript.DispatchPrecedence | scripts/generate-cv-pdf.js:338-360 | help wins over clean, clean over multi, and other arguments change nothing |
| CvPdfScript.Written | scripts/generate-cv-pdf.js:236-237 | after the write the name is an entry exactly once and no other entry changed |
| CvPdfScript.CvGenerator.constructor | scripts/generate-cv-pdf.js:17-34 | the configured name starts as `Vu_Le_Resume.pdf` |
| CvPdfScript.CvGenerator.GenerateCvPdf | scripts/generate-cv-pdf.js:64-254 | the file is written exactly when a target is chosen and the browser succeeds, under the configured name; otherwise the directory is unchanged and the error says which step failed |
| CvPdfScript.CvGenerator.GenerateMultipleVersions | scripts/generate-cv-pdf.js:292-305 | succeeds exactly when both generations do, writing `Vu_Le_Resume.pdf` and then the dated copy and leaving the configured name dated; a failed first generation writes nothing and leaves the standard name, a failed second leaves the standard file written and the dated name configured |
| CvPdfScript.CvGenerator.CleanupOldPdfs | scripts/generate-cv-pdf.js:310-329 | deletes exactly the names of `FilesToDelete`, one by one, and nothing else |
| CvPdfScript.CvGenerator.UnlinkEach | scripts/generate-cv-pdf.js:323-327 | unlinking the names one after the other leaves the directory without all of them |
| CvPdfScript.CvGenerator.Run | scripts/generate-cv-pdf.js:334-369 | runs the mode the flags select. Help and clean keep the configured name; clean deletes `FilesToDelete`. The single mode completes exactly when its generation succeeds, writing the configured name, and otherwise exits with that generation's error and the directory unchanged. The multi mode gives the three outcomes of `GenerateMultipleVersions`. A completed run reports the production address of the configured file |
| SitemapScript.UrlFields | scripts/generate-sitemap.js:74-78 | a block's lines open with `loc` = site + page url and close with `</url>` and a blank line |
| SitemapScript.UrlEntry | scripts/generate-sitemap.js:72-80 | a page's text opens with its description comment and ends with its `url` block |
| SitemapScript.SitemapXml | scripts/generate-sitemap.js:62-85 | the sitemap starts with the XML declaration and `urlset` opening and ends with `</urlset>` |
| SitemapScript.GenerateSitemap | scripts/generate-sitemap.js:59-86 | the appending loop builds exactly the sitemap of the pages with the date part of the clock reading |
| SitemapScript.AppendEach | scripts/generate-sitemap.js:71-81 | appending each page's block in turn adds exactly the blocks of all pages, in list order |
| SitemapScript.ConcatSnoc | scripts/generate-sitemap.js:72-80 | one more iteration appends the next page's block |
| SitemapScript.ConcatFirst | scripts/generate-sitemap.js:71-81 | the appended blocks read from the first page on as well |
| SitemapScript.Expect | scripts/generate-sitemap.js:72-80 | reading a literal consumes exactly its length |
| SitemapScript.ExpectOf | scripts/generate-sitemap.js:72-80 | a literal is read back from text that starts with it |
| SitemapScript.SplitAtGt | scripts/generate-sitemap.js:72-78 | splitting at `>` consumes at least one character |
| SitemapScript.SplitAtGtOf | scripts/generate-sitemap.js:72-78 | text without `>` followed by `>` splits there |
| SitemapScript.ReadLine | scripts/generate-sitemap.js:74-77 | reading a line consumes at least one character |
| SitemapScript.ReadLineOf | scripts/generate-sitemap.js:74-77 | each written line reads back to its value |
| SitemapScript.ReadFields | scripts/generate-sitemap.js:74-78 | reading the fields consumes at least one character |
| SitemapScript.ReadFieldsOf | scripts/generate-sitemap.js:74-78 | `loc` = site + page url, `lastmod` = the date, `changefreq` and `priority` as listed |
| SitemapScript.ReadEntry | scripts/generate-sitemap.js:72-80 | reading a block consumes at least one character |
| SitemapScript.ReadEntryOf | scripts/generate-sitemap.js:72-80 | a written block reads back to its page and date |
| SitemapScript.EntriesFirst | scripts/generate-sitemap.js:71-81 | the blocks of a page list are the first page's block followed by the others' |
| SitemapScript.ReadEntriesCons | scripts/generate-sitemap.js:72-80 | a written block reads back to its page, and reading goes on after it |
| SitemapScript.Stamped | scripts/generate-sitemap.js:71-81 | each page paired with the one date, in list order |
| SitemapScript.ReadEntriesOf | scripts/generate-sitemap.js:71-83 | the blocks and the closing tag read back to the page list |
| SitemapScript.SitemapRoundTrip | scripts/generate-sitemap.js:59-86 | for pages whose fields with the site address contain no `>`, and a date without `>`: exactly one block per page, in list order, with `loc` = site + url, the one date as `lastmod`, `changefreq` and `priority` verbatim |
| SitemapScript.SitePagesReadable | scripts/generate-sitemap.js:25-56 | no field of the site's pages contains `>` |
| SitemapScript.HomePageReadable | scripts/generate-sitemap.js:26-31 | the home page's fields contain no `>` |
| SitemapScript.AboutPageReadable | scripts/generate-sitemap.js:32-37 | the about page's fields contain no `>` |
| SitemapScript.SkillsPageReadable | scripts/generate-sitemap.js:38-43 | the skills page's fields contain no `>` |
| SitemapScript.ProjectsPageReadable | scripts/generate-sitemap.js:44-49 | the projects page's fields contain no `>` |
| SitemapScript.ContactPageReadable | scripts/generate-sitemap.js:50-55 | the contact page's fields contain no `>` |
| SitemapScript.SiteSitemapRoundTrip | scripts/generate-sitemap.js:16-86 | the site's five pages read back from its sitemap with `YYYY-MM-DD` of the clock reading as every `lastmod` |
| SitemapScript.RobotsTxt | scripts/generate-sitemap.js:89-117 | robots.txt opens by allowing every agent, has the line `Sitemap: <site>/sitemap.xml`, and ends with the generation timestamp |

## Findings

| source | as written | input that shows it | evidently intended | confidence | as-written member | corrected member |
|---|---|---|---|---|---|---|
| src/utils/pdfGenerator.ts:134-137 | when the rasteriser throws, the `catch` only logs and shows the error toast; the hidden elements are not restored and the `pdf-styles` node stays in the head | a page with a visible `nav` and a rasteriser that throws: the `nav` stays `display: none` | the cleanup (restore and remove the stylesheet) runs on every exit path: the hiding is described as temporary at src/utils/pdfGenerator.ts:60 | medium, not executed | PdfGenerator.Document.GeneratePdf, PdfGenerator.Document.GenerateResumePdf, PdfGenerator.FailedExportLeavesNavHidden | PdfGenerator.Document.GeneratePdfWithCleanup, PdfGenerator.Document.GenerateResumePdfWithCleanup |

`GenerateResumePdf` models the resume download as written, through `GeneratePdf`; `GenerateResumePdfWithCleanup` is the same download through the corrected export.

## Left out

- The rasteriser (`html2canvas`) and the PDF library (`jsPDF`) are not modelled. The rasteriser is a function from the merged options to a canvas size or an error. Whether building and saving the document (`toDataURL`, `addPage`, `addImage`, `save`) throws is a boolean input: such a throw, for instance on a canvas tainted by a cross-origin image, takes the same error path. The PDF is its list of image placements and its properties record.
- Floating point: image heights and page offsets are exact reals, with no rounding.
- The settle delay, the toasts and their timers, and `trackPDFDownload` are not modelled. The model keeps only the message of the error toast.
- The DOM is a fixed list of elements. Each element keeps only its tag name, classes, attributes and inline display. Selectors cover only the four forms the sanitiser uses. `getElementById` looks only at the head's style nodes.
- The print stylesheet's CSS is an opaque string.
- `generatePDF`'s `element` argument is not modelled: the capture target is only passed through to the rasteriser.
- Options whose value is explicitly `undefined` are treated as absent keys.
- PdfGenerator.Document.GeneratePdf: requires a canvas of non-zero width. The source divides by the width: for a zero width its page loop never ends when the height is positive, or places one NaN-sized page when the height is zero.
- PdfGenerator.Document.GeneratePdfWithCleanup: requires a canvas of non-zero width, for the same reason as `GeneratePdf`.
- PdfGenerator.Document.GenerateDefaultPdf: requires a canvas of non-zero width, for the same reason as `GeneratePdf`.
- PdfGenerator.Document.GenerateResumePdf: requires a canvas of non-zero width, for the same reason as `GeneratePdf`.
- PdfGenerator.Document.GenerateResumePdfWithCleanup: requires a canvas of non-zero width, for the same reason as `GeneratePdf`.
- CodeUnitOrder.Sort: orders by Dafny characters (code points), while JavaScript's `sort()` compares UTF-16 code units. The two agree on the ASCII file names the script produces.
- The generator scripts' I/O is not modelled:
  - Puppeteer, `fetch` and the `autoScroll` timer loop;
  - the page layout options of the browser;
  - `addPDFMetadata`, which only logs;
  - `process.exit`, file sizes and console output.
  The availability probes and the browser's success are inputs. The output directory is a list of names.
- The clock (`new Date().toISOString()`) is an input timestamp.
- Writing `sitemap.xml` and `robots.txt` to disk, and the size report after it, are not modelled.
- `png-to-svg.js`, `fix-mime-types.js`, `test-precommit.js`, `vite.config.ts` and the React components are not part of this model.
