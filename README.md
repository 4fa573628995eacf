# PG2TEI core in Dafny

PG2TEI turns entries of the Project Gutenberg RDF catalog into TEI P5 documents.
A SAX handler reads the catalog. For each `pgterms:etext` entry it fills a TEIDoc record.
At the end of the entry it fetches the book's own RDF descriptor and merges the
descriptor's Dublin Core fields into the record. Then it takes the HTML edition, cuts
the `<pre>` blocks out of the HTML and keeps their paragraphs as rights statements.
From the record it builds a TEI header, following chapter 2 of the TEI P5 Guidelines,
and appends the `text` element of the converted body. Last, it adds a file entry for
the new XML document to the descriptor.

This project models that core in four modules, one per Java class. A fifth module holds
the tree and string helpers they share.

- `RdfParser` (rdf_parser.dfy) models the handler. Each callback (`startElement`,
  `characters`, `endElement`) is a method of the class `RDFParser`. The method is proved
  against a pure step function over a `ParserState`: the buffer, the entry counter, the
  entry flag, the five context flags and the current record.
  - The outside world is a `World` value. It holds whether the output files exist, the
    parsed descriptor, the fetched HTML text, the converted body, the display-language
    function, today's date, the size of the written file and the clock.
  - `RdfParserFacts` (rdf_parser_facts.dfy) folds the step functions over a sequence of
    SAX events. It proves the handler's promises: the buffer, the counter, routing by
    flag, the merge, and how an entry ends.
- `BookRdf` (book_rdf.dfy) models the descriptor.
  - The class `BookRDF` covers `loadRDF` (with the parsed document as input), the format
    scan of `formatURLsFromDoc`, `extractMetaInfo`, `process` and `addDocumentInfo`.
  - Alongside it are the pure definitions that methods and lemmas are proved against:
    the `;\s+` split, the four edition rules, the map that the last file wins, the
    first-match meta fields, and the insertion of the new file and format nodes.
- `HtmlBook` (html_book.dfy) models `HTMLBook.loadHTML`'s text part.
  - It covers line reading, the non-greedy, case-insensitive `<pre>…</pre>` scan, the
    cleaned text, and the paragraphs split at blank lines, trimmed, with empty ones
    dropped.
  - The scan loop is proved against `Cleaned` and `PreParas`.
- `TeiDoc` (tei_doc.dfy) and `TeiDocFacts` (tei_doc_facts.dfy) model the record and
  `genTEIXMLDom`.
  - The method builds the header section by section. It is proved equal to the pure tree
    `Header`.
  - The facts read each section back out of that tree: titles, author, licence, idno,
    source description, language usage, keywords and class codes.
- `XmlTree`, `Strings` and `Wrappers` hold shared helpers: a DOM-like tree, Java string
  operations (`trim`, `split`, `equalsIgnoreCase`, `Integer.toString`) and `Option` for
  Java `null`.

Three behaviours of the code a reader might not expect:

- An `rdf:ID` without trailing digits does not fail the entry. `idN` keeps its default 0
  and the entry is processed like any other (RDFParser.java:158-168).
- A nested `pgterms:etext` start is not rejected. It replaces the current record with a
  fresh one (RDFParser.java:150-153).
- `$` in `\d+$` also matches before a final line terminator, as in java.util.regex.

## Model

| member | source | states |
|---|---|---|
| `RdfParser.RDFParser.constructor` | src/me/cavar/pg2tei/RDFParser.java:92-103 | empty buffer, counter 0, outside any entry, every flag down, no record |
| `RdfParser.RDFParser.StartElement` | src/me/cavar/pg2tei/RDFParser.java:146-209 | new state is `StartStep` of the old one: buffer cleared, then an entry opened, the tag ignored outside an entry, or the tag read; a fresh TEIDoc exactly on `pgterms:etext`; `thrown` when parseInt throws |
| `RdfParser.RDFParser.OpenEntry` | src/me/cavar/pg2tei/RDFParser.java:150-171 | entry found, counter one higher, fresh record read from the attributes by `ReadIds` |
| `RdfParser.RDFParser.ReadIdAttributes` | src/me/cavar/pg2tei/RDFParser.java:154-170 | the attribute loop sets the record to `ReadIds` of the attributes, with parseInt's overflow as `thrown` |
| `RdfParser.RDFParser.StartInside` | src/me/cavar/pg2tei/RDFParser.java:173-208 | a start tag inside an entry changes only the flags (`FlagsStart`) and the record (`RecordStart`) |
| `RdfParser.RDFParser.StartField` | src/me/cavar/pg2tei/RDFParser.java:176-208 | the if-chain of startElement: the tag's flag raised, its record field updated |
| `RdfParser.RDFParser.StartFlag` | src/me/cavar/pg2tei/RDFParser.java:176-189 | the five flag-raising tags each raise their own flag |
| `RdfParser.RDFParser.StartRecordField` | src/me/cavar/pg2tei/RDFParser.java:180-207 | ISO639-2 sets `languageISO` only under the language flag; dc:rights appends its `rdf:resource` values |
| `RdfParser.RDFParser.AddResources` | src/me/cavar/pg2tei/RDFParser.java:191-207 | rights extended by exactly the `rdf:resource` values, in order |
| `RdfParser.RDFParser.Characters` | src/me/cavar/pg2tei/RDFParser.java:219-221 | the text is appended to the buffer and nothing else changes |
| `RdfParser.RDFParser.EndElement` | src/me/cavar/pg2tei/RDFParser.java:231-418 | new state and outcome are `EndStep` of the old state with the handler's entry end; the TEI document is `TeiOf` the final record when converted |
| `RdfParser.RDFParser.EndInside` | src/me/cavar/pg2tei/RDFParser.java:383-417 | a non-entry end tag changes only the flags (`FlagsEnd`) and the record (`RecordEnd`) |
| `RdfParser.RDFParser.EndField` | src/me/cavar/pg2tei/RDFParser.java:383-417 | the if-chain of endElement applied to the record with the buffered text |
| `RdfParser.RDFParser.EndText` | src/me/cavar/pg2tei/RDFParser.java:383-416 | the text tags' ends set their field from the buffer (`TextEnd`) |
| `RdfParser.RDFParser.SetTextField` | src/me/cavar/pg2tei/RDFParser.java:383-416 | publisher, creator, friendly title, contents and description overwritten; title appended; the others unchanged |
| `RdfParser.RDFParser.EndValue` | src/me/cavar/pg2tei/RDFParser.java:395-406 | rdf:value's text routed by `RouteValue` |
| `RdfParser.RDFParser.EndFlag` | src/me/cavar/pg2tei/RDFParser.java:389-414 | each flag lowered only by its own end tag |
| `RdfParser.RDFParser.CloseEntry` | src/me/cavar/pg2tei/RDFParser.java:235-382 | entry closed; record and outcome are `FinishEntry` of the record; TEI document written only when converted |
| `RdfParser.RDFParser.EndEntry` | src/me/cavar/pg2tei/RDFParser.java:238-364 | skipped when both files exist, else the descriptor read and merged, then the edition converted, as `FinishEntry` says |
| `RdfParser.RDFParser.ReadBook` | src/me/cavar/pg2tei/RDFParser.java:248-249 | a fresh BookRDF holding `ReadDescriptor` of the descriptor's address |
| `RdfParser.RDFParser.ReadAndMerge` | src/me/cavar/pg2tei/RDFParser.java:248-268 | the descriptor read; when the format loop did not throw, its meta fields merged by `Merge` |
| `RdfParser.RDFParser.MergeMeta` | src/me/cavar/pg2tei/RDFParser.java:251-268 | the record becomes `Merge` of the record and the descriptor |
| `RdfParser.RDFParser.MergeFields` | src/me/cavar/pg2tei/RDFParser.java:253-268 | language and publisher filled only if unset; rights and title appended |
| `RdfParser.RDFParser.Convert` | src/me/cavar/pg2tei/RDFParser.java:270-296 | the HTML edition converted; HTML_ZIP, EPUB, EPUB_NO_I or none returns early, as `ConvertEntry` says |
| `RdfParser.RDFParser.ConvertHtml` | src/me/cavar/pg2tei/RDFParser.java:272-315 | the HTML branch: load the edition, stop without a body, otherwise publish |
| `RdfParser.RDFParser.LoadEdition` | src/me/cavar/pg2tei/RDFParser.java:273-282 | the edition's `<pre>` paragraphs appended to the rights; its converted body returned |
| `RdfParser.RDFParser.AddRights` | src/me/cavar/pg2tei/RDFParser.java:278-282 | rights extended by the paragraphs, in order |
| `RdfParser.RDFParser.WriteDom` | src/me/cavar/pg2tei/RDFParser.java:302-316 | the document is the header with the body's single `text` element appended (`TeiOf`) |
| `RdfParser.RDFParser.Publish` | src/me/cavar/pg2tei/RDFParser.java:302-364 | the TEI document written, then the descriptor extended by addDocumentInfo |
| `RdfParserFacts.TagOfIff` | src/me/cavar/pg2tei/RDFParser.java:176-190 | a qName is read as tag `t` exactly when it equals `t`'s name ignoring case |
| `RdfParserFacts.TagOfOther` | src/me/cavar/pg2tei/RDFParser.java:383-417 | any other name is ignored by both chains |
| `RdfParserFacts.NamesDistinct` | src/me/cavar/pg2tei/RDFParser.java:176-415 | no two compared names are equal ignoring case, so chain order never matters |
| `RdfParserFacts.MatchUnique` | src/me/cavar/pg2tei/RDFParser.java:176-190 | a name matches at most one listed name |
| `RdfParserFacts.TrailingDigitsFind` | src/me/cavar/pg2tei/RDFParser.java:161-165 | `\d+$` finds a match exactly when one exists; the match found is the leftmost, maximal digit run |
| `RdfParserFacts.TrailingDigitsExamples` | src/me/cavar/pg2tei/RDFParser.java:161-168 | "etext12345" gives 12345; no digits or a non-trailing run gives none; a final line break is allowed |
| `RdfParserFacts.RunStartMaximal` | src/me/cavar/pg2tei/RDFParser.java:161 | the digit run cannot be extended to the left |
| `RdfParserFacts.ReadIdsExample` | src/me/cavar/pg2tei/RDFParser.java:154-168 | `rdf:ID="etext12345"` sets id and idN 12345 |
| `RdfParserFacts.ReadIdsFrame` | src/me/cavar/pg2tei/RDFParser.java:154-170 | the etext attribute loop changes only `id` and `idN` |
| `RdfParserFacts.ReadIdsThrown` | src/me/cavar/pg2tei/RDFParser.java:164-167 | the loop throws exactly when an rdf:ID's number exceeds Integer.MAX_VALUE |
| `RdfParserFacts.ReadIdsNoId` | src/me/cavar/pg2tei/RDFParser.java:154-170 | without an rdf:ID the record stays as it was (idN keeps its default) |
| `RdfParserFacts.ResourcesAppend` | src/me/cavar/pg2tei/RDFParser.java:191-207 | the resources of two attribute runs concatenate |
| `RdfParserFacts.ResourcesMembers` | src/me/cavar/pg2tei/RDFParser.java:191-207 | a value is collected exactly when an `rdf:resource` attribute carries it |
| `RdfParserFacts.ApplyBuffer` | src/me/cavar/pg2tei/RDFParser.java:146-221 | one event: a start tag empties the buffer and counts an etext; characters append; an end tag changes neither |
| `RdfParserFacts.RunBuffer` | src/me/cavar/pg2tei/RDFParser.java:219-221 | with no start tag in a run, the buffer gains the run's characters text |
| `RdfParserFacts.BufferSinceLastStart` | src/me/cavar/pg2tei/RDFParser.java:147-221 | after a start tag, the buffer is exactly the characters since that start tag |
| `RdfParserFacts.RunCountsEntries` | src/me/cavar/pg2tei/RDFParser.java:150-153 | the counter rises by the number of etext start tags |
| `RdfParserFacts.RunAppend` | src/me/cavar/pg2tei/RDFParser.java:146-418 | the handler processes events one after the other: a run of `a + b` is `b` after `a` |
| `RdfParserFacts.RunOutsideEntry` | src/me/cavar/pg2tei/RDFParser.java:173-234 | outside an entry, until the next etext start, only the buffer changes |
| `RdfParserFacts.EntryStartFresh` | src/me/cavar/pg2tei/RDFParser.java:150-153 | etext start: entry found, counter + 1, empty record except id and idN, digits or not |
| `RdfParserFacts.FlagsOwnTags` | src/me/cavar/pg2tei/RDFParser.java:176-414 | each flag raised only by its own start tag, lowered only by its own end tag |
| `RdfParserFacts.RecordStartFields` | src/me/cavar/pg2tei/RDFParser.java:180-207 | start tags change only `languageISO` (under the language flag) and the rights |
| `RdfParserFacts.RouteValuePriority` | src/me/cavar/pg2tei/RDFParser.java:395-406 | rdf:value's text goes to one field by priority language, LCSH (appended), LCC, category, date; dropped without a flag |
| `RdfParserFacts.LanguageOpen` | src/me/cavar/pg2tei/RDFParser.java:176-183 | opening dc:language, ISO639-2 and rdf:value raises the language flag and sets `languageISO` |
| `RdfParserFacts.LanguageClose` | src/me/cavar/pg2tei/RDFParser.java:391-397 | the value's text becomes the language code and the flag is lowered |
| `RdfParserFacts.MergeOnlyIfUnset` | src/me/cavar/pg2tei/RDFParser.java:253-268 | descriptor language and publisher fill only unset fields; rights and title appended; nothing else changes |
| `RdfParserFacts.FinishEntryOutcomes` | src/me/cavar/pg2tei/RDFParser.java:236-315 | each outcome (skipped, descriptor threw, no HTML edition, no body, converted) happens exactly under its condition, with the record it leaves |
| `RdfParserFacts.WithTextAppends` | src/me/cavar/pg2tei/RDFParser.java:308-316 | the body's `text` element is appended to the root only when there is exactly one |
| `BookRdf.BookRDF.constructor` | src/me/cavar/pg2tei/BookRDF.java:132-139 | URL kept when java.net.URL accepts it; empty map; no document; every field unset |
| `BookRdf.BookRDF.LoadRDF` | src/me/cavar/pg2tei/BookRDF.java:233-279 | the document is set only when there is a URL and the text parses |
| `BookRdf.BookRDF.FormatURLsFromDoc` | src/me/cavar/pg2tei/BookRDF.java:284-389 | no document: nothing changes; otherwise the map is `FormatsOf` the files' facts, thrown on the index error |
| `BookRdf.BookRDF.ScanFile` | src/me/cavar/pg2tei/BookRDF.java:348-371 | a file's rdf:about (or "") and the outcome of its value loop |
| `BookRdf.BookRDF.TypeEncoding` | src/me/cavar/pg2tei/BookRDF.java:359-371 | the inner value loop, with its break, leaves `Outcome(Decide(...))` |
| `BookRdf.BookRDF.Store` | src/me/cavar/pg2tei/BookRDF.java:374-383 | the put chain is one `FormatsStep` |
| `BookRdf.BookRDF.ExtractMetaInfo` | src/me/cavar/pg2tei/BookRDF.java:394-425 | no document: nothing changes; otherwise each of the five fields is `MetaField` of its dcterms element |
| `BookRdf.BookRDF.MetaFieldOf` | src/me/cavar/pg2tei/BookRDF.java:401-404 | the first element's text, or the old value |
| `BookRdf.BookRDF.Process` | src/me/cavar/pg2tei/BookRDF.java:431-435 | load, formats, meta; the index error skips extractMetaInfo |
| `BookRdf.BookRDF.AddDocumentInfo` | src/me/cavar/pg2tei/BookRDF.java:152-224 | the descriptor becomes `AddInfo` of the new file and format nodes; thrown when a DOM operation throws |
| `BookRdf.SuffixesExclusive` | src/me/cavar/pg2tei/BookRDF.java:375-383 | no address ends in two of the suffixes |
| `BookRdf.ClassifyIff` | src/me/cavar/pg2tei/BookRDF.java:375-383 | a file is classified under a key exactly when that key's rule (suffix and MIME type) holds |
| `BookRdf.NoAddressNeverClassified` | src/me/cavar/pg2tei/BookRDF.java:350-383 | a file without rdf:about ("") is never classified |
| `BookRdf.FindSep` | src/me/cavar/pg2tei/BookRDF.java:364 | the first match of `;\s+` from an index, or none at all |
| `BookRdf.DecideNoSeparator` | src/me/cavar/pg2tei/BookRDF.java:368-370 | with no value containing "; ", the last value trimmed is the type and the encoding is unchanged |
| `BookRdf.DecideFirstSeparator` | src/me/cavar/pg2tei/BookRDF.java:361-367 | the first value containing "; " decides, and later values are never read |
| `BookRdf.SplitTypeAndCharset` | src/me/cavar/pg2tei/BookRDF.java:364 | `a; charset=cs` splits into `a` and `charset=cs` |
| `BookRdf.TypeAndCharset` | src/me/cavar/pg2tei/BookRDF.java:363-367 | `a; charset=cs` gives type `a` and encoding `cs` |
| `BookRdf.FactsOf` | src/me/cavar/pg2tei/BookRDF.java:346-348 | one fact per file node, in document order |
| `BookRdf.FormatsStopped` | src/me/cavar/pg2tei/BookRDF.java:361-366 | after the index error, later files change nothing |
| `BookRdf.FormatsThrown` | src/me/cavar/pg2tei/BookRDF.java:347-384 | the loop throws exactly when some file's value split lacks a second part |
| `BookRdf.FormatsKeys` | src/me/cavar/pg2tei/BookRDF.java:374-383 | a key is present exactly when it was before or some file matches its rule |
| `BookRdf.FormatsLastWins` | src/me/cavar/pg2tei/BookRDF.java:374-383 | each key holds the entry of the last file classified under it |
| `BookRdf.FirstText` | src/me/cavar/pg2tei/BookRDF.java:401-404 | the first such element's text when one exists, none otherwise |
| `BookRdf.MetaField` | src/me/cavar/pg2tei/BookRDF.java:401-424 | the first such element's text when one exists, otherwise the old value unchanged |
| `BookRdf.ZeroPadFits` | src/me/cavar/pg2tei/BookRDF.java:182-184 | a padded field that fits has exactly its width and reads back as its number |
| `BookRdf.StampAsWrittenFields` | src/me/cavar/pg2tei/BookRDF.java:181-184 | the stamp as written has 20 characters, the minute where the month belongs, and a 12-hour clock |
| `BookRdf.StampAsWrittenExample` | src/me/cavar/pg2tei/BookRDF.java:181-184 | at 2004-09-14 19:51:46 the stamp shows 51 as the month and 07 as the hour |
| `BookRdf.StampFields` | src/me/cavar/pg2tei/BookRDF.java:179-184 | the corrected stamp is an xsd:dateTime whose fields read back as the moment |
| `BookRdf.FileNodeValues` | src/me/cavar/pg2tei/BookRDF.java:154-173 | the new file holds one value, "text/xml; charset=" + charSet |
| `BookRdf.FileNodeScan` | src/me/cavar/pg2tei/BookRDF.java:162-171 | the new file's value scans to type text/xml and the given charset |
| `BookRdf.FileNodeReadsBack` | src/me/cavar/pg2tei/BookRDF.java:154-173 | read back, the new file has address `xmlURL + id + "/" + id + ".xml"`, is text/xml, and is never taken as an edition |
| `BookRdf.FileNodeAlone` | src/me/cavar/pg2tei/BookRDF.java:154-185 | the new file contains no other pgterms:file |
| `BookRdf.AddInfoFormatFirst` | src/me/cavar/pg2tei/BookRDF.java:189-197 | the new hasFormat comes before the existing ones |
| `BookRdf.AddInfoFileFirst` | src/me/cavar/pg2tei/BookRDF.java:217-223 | the new file comes first among the pgterms:file elements, the rest in order |
| `HtmlBook.HTMLBook.constructor` | src/me/cavar/pg2tei/HTMLBook.java:91-103 | `preParagraphs` empty; encoding kept only when non-empty; idN the decimal id |
| `HtmlBook.HTMLBook.LoadHTML` | src/me/cavar/pg2tei/HTMLBook.java:119-182 | no URL: nothing; else paragraphs extended by `PreParas` and the saved text `Cleaned`, both of the text read |
| `HtmlBook.HTMLBook.AddParagraphsOf` | src/me/cavar/pg2tei/HTMLBook.java:170-175 | paragraphs extended by `ParasOf` the block content |
| `HtmlBook.ReadLines` | src/me/cavar/pg2tei/HTMLBook.java:145-147 | the text read is empty exactly when the input is |
| `HtmlBook.ReadLinesShape` | src/me/cavar/pg2tei/HTMLBook.java:145-147 | no carriage return remains; a non-empty text ends in a line break |
| `HtmlBook.ReadLinesIdempotent` | src/me/cavar/pg2tei/HTMLBook.java:145-147 | text already read line by line reads back unchanged |
| `HtmlBook.FindCI` | src/me/cavar/pg2tei/HTMLBook.java:158-166 | the first case-insensitive occurrence from an index, or none at all |
| `HtmlBook.NextBlock` | src/me/cavar/pg2tei/HTMLBook.java:158-166 | a match is the first `<pre>` at or after `pos`, ignoring case, closed by the first `</pre>` after it (the lazy `.*?`): no `<pre>` lies between `pos` and the match, and the block content holds no `</pre>` |
| `HtmlBook.ParasOf` | src/me/cavar/pg2tei/HTMLBook.java:170-175 | every paragraph of a block is non-empty, trimmed and free of blank lines |
| `HtmlBook.BlockStep` | src/me/cavar/pg2tei/HTMLBook.java:166-176 | one block: the gap, one "\n", the rest; its paragraphs before the rest's |
| `HtmlBook.ParasRebuild` | src/me/cavar/pg2tei/HTMLBook.java:170-175 | the paragraphs of a block, run together, equal its content with every character up to U+0020 (what `trim` treats as white space) dropped: trim, the blank-line split and the dropped empty pieces lose only white space |
| `HtmlBook.BlockContents` | src/me/cavar/pg2tei/HTMLBook.java:158-168 | the contents between the markers of the blocks `find` returns, empty exactly when there is no block |
| `HtmlBook.PreParasRebuild` | src/me/cavar/pg2tei/HTMLBook.java:166-176 | all collected paragraphs, run together, equal all block contents up to white space; with `BlockStep`, cleaned text plus paragraphs give back the text up to white space inside the markers |
| `HtmlBook.NoBlockUnchanged` | src/me/cavar/pg2tei/HTMLBook.java:163-180 | without a block the text is unchanged and no paragraph is added |
| `HtmlBook.NonEmptyTrimmedShape` | src/me/cavar/pg2tei/HTMLBook.java:170-175 | the kept pieces are non-empty, trimmed and free of blank lines |
| `HtmlBook.PreParasShape` | src/me/cavar/pg2tei/HTMLBook.java:166-176 | every collected paragraph is non-empty, trimmed and free of blank lines |
| `HtmlBook.GapHasNoOpen` | src/me/cavar/pg2tei/HTMLBook.java:158-167 | the text before a block holds no `<pre>` (leftmost match) |
| `HtmlBook.NoBlockWhenNoMatch` | src/me/cavar/pg2tei/HTMLBook.java:166 | when find fails, no `<pre>` in the rest is closed by a later `</pre>` |
| `HtmlBook.CleanedHasNoBlock` | src/me/cavar/pg2tei/HTMLBook.java:163-180 | the cleaned text holds no block |
| `HtmlBook.CleanedIdempotent` | src/me/cavar/pg2tei/HTMLBook.java:163-180 | cleaning a cleaned text changes nothing and yields no paragraph |
| `TeiDoc.TEIDoc.constructor` | src/me/cavar/pg2tei/TEIDoc.java:139-145 | the record is empty (lists empty, strings unset, idN 0) and there is no DOM |
| `TeiDoc.TEIDoc.GenTEIXMLDom` | src/me/cavar/pg2tei/TEIDoc.java:179-474 | the DOM is `Header` of the record |
| `TeiDoc.TEIDoc.BuildMainTitles` | src/me/cavar/pg2tei/TEIDoc.java:208-236 | the title elements built are `MainTitles` of the titles |
| `TeiDoc.TEIDoc.BuildTitleStmt` | src/me/cavar/pg2tei/TEIDoc.java:202-258 | the titleStmt is `TitleStmt` of the record |
| `TeiDoc.TEIDoc.BuildPublicationStmt` | src/me/cavar/pg2tei/TEIDoc.java:260-323 | the publicationStmt is `PublicationStmt` of the record |
| `TeiDoc.TEIDoc.BuildSourceDesc` | src/me/cavar/pg2tei/TEIDoc.java:325-344 | the sourceDesc is `SourceDesc` of the record |
| `TeiDoc.TEIDoc.BuildProfileDesc` | src/me/cavar/pg2tei/TEIDoc.java:399-451 | the profileDesc is `ProfileDesc` of the record |
| `TeiDoc.NameMatch` | src/me/cavar/pg2tei/TEIDoc.java:247-249 | `find`: a match of the pattern (`NameYearMatch`) at the leftmost start at or after `i`, with the longest name group at that start; none exactly when the pattern matches nowhere from `i` on |
| `TeiDoc.NameRunEndMaximal` | src/me/cavar/pg2tei/TEIDoc.java:247 | the name run is maximal |
| `TeiDoc.LifeSpanIsYear` | src/me/cavar/pg2tei/TEIDoc.java:247 | ", YYYY-YYYY" matches the year group |
| `TeiDoc.AuthorStripsLifeSpan` | src/me/cavar/pg2tei/TEIDoc.java:244-256 | "name, YYYY-YYYY" gives the name |
| `TeiDoc.AuthorExample` | src/me/cavar/pg2tei/TEIDoc.java:247-252 | "Doe, Jane, 1800-1850" gives "Doe, Jane" |
| `TeiDoc.AuthorVerbatim` | src/me/cavar/pg2tei/TEIDoc.java:253-255 | whenever the pattern matches nowhere in the creator, the creator is kept verbatim |
| `TeiDoc.AuthorYearOnly` | src/me/cavar/pg2tei/TEIDoc.java:247-255 | ", 1800-1850" (a year group with no name before it) is not a match and is kept verbatim |
| `TeiDoc.LastCommaMatch` | src/me/cavar/pg2tei/TEIDoc.java:247-251 | a match from the start whose year group begins at the last comma is the one `find(0)` returns |
| `TeiDoc.NewlineTitleThrows` | src/me/cavar/pg2tei/TEIDoc.java:210-219 | as written, the title "\n" makes the header assembly throw |
| `TeiDoc.TitleLinesRejoin` | src/me/cavar/pg2tei/TEIDoc.java:211-213 | the title lines rejoined with "\n" give the title minus its trailing line breaks |
| `TeiDoc.TwoLineTitle` | src/me/cavar/pg2tei/TEIDoc.java:211-213 | "a\nb" splits into exactly [a, b] |
| `TeiDocFacts.DocumentShape` | src/me/cavar/pg2tei/TEIDoc.java:183-196 | one xml-model instruction, then a TEI root in the TEI namespace holding the teiHeader |
| `TeiDocFacts.TitleStmtInHeader` | src/me/cavar/pg2tei/TEIDoc.java:194-258 | teiHeader/fileDesc/titleStmt is `TitleStmt` of the record |
| `TeiDocFacts.PublicationStmtInHeader` | src/me/cavar/pg2tei/TEIDoc.java:260-323 | teiHeader/fileDesc/publicationStmt is `PublicationStmt` of the record |
| `TeiDocFacts.SourceDescInHeader` | src/me/cavar/pg2tei/TEIDoc.java:325-344 | teiHeader/fileDesc/sourceDesc is `SourceDesc` of the record |
| `TeiDocFacts.EncodingDescInHeader` | src/me/cavar/pg2tei/TEIDoc.java:347-397 | the encodingDesc is the same for every input, with taxonomies lcsh, lc and pg |
| `TeiDocFacts.ProfileDescInHeader` | src/me/cavar/pg2tei/TEIDoc.java:399-451 | teiHeader/profileDesc is `ProfileDesc` of the record |
| `TeiDocFacts.RevisionInHeader` | src/me/cavar/pg2tei/TEIDoc.java:453-464 | one change: today, by #DC, "Initial conversion from HTML to TEI XML." |
| `TeiDocFacts.FullTitleShape` | src/me/cavar/pg2tei/TEIDoc.java:206-241 | the full title always ends with the alt title (friendly title or empty), which is alone exactly when there is no title |
| `TeiDocFacts.SingleLineTitle` | src/me/cavar/pg2tei/TEIDoc.java:230-240 | a last title without "\n" is the one main title, before the alt title |
| `TeiDocFacts.MultiLineTitle` | src/me/cavar/pg2tei/TEIDoc.java:211-228 | with "\n": first line main, each later line sub, in order |
| `TeiDocFacts.TwoLineTitleOf` | src/me/cavar/pg2tei/TEIDoc.java:211-240 | "a\nb" gives main a, sub b, then alt |
| `TeiDocFacts.NewlineTitleCorrected` | src/me/cavar/pg2tei/TEIDoc.java:210-219 | corrected: the title "\n" gives an empty main title, then alt |
| `TeiDocFacts.AuthorOf` | src/me/cavar/pg2tei/TEIDoc.java:244-256 | author empty without a creator, else `AuthorName` of the creator |
| `TeiDocFacts.AuthorExampleOf` | src/me/cavar/pg2tei/TEIDoc.java:244-257 | the example creator appears in the header as "Doe, Jane" |
| `TeiDocFacts.PublisherAndDate` | src/me/cavar/pg2tei/TEIDoc.java:262-272 | publisher and date always present, empty when unset |
| `TeiDocFacts.LicenceParagraphs` | src/me/cavar/pg2tei/TEIDoc.java:274-281 | one `p` per rights entry, in order |
| `TeiDocFacts.IdnoRoundTrip` | src/me/cavar/pg2tei/TEIDoc.java:318-321 | idno is empty without an id; otherwise its digits read back as idN |
| `TeiDocFacts.SourceParagraphsOf` | src/me/cavar/pg2tei/TEIDoc.java:327-343 | the fixed note, then "Creator: " + creator when known, then the description when known |
| `TeiDocFacts.CreationDateOf` | src/me/cavar/pg2tei/TEIDoc.java:403-406 | creation/date always present, empty when the date is unset |
| `TeiDocFacts.LangUsageOf` | src/me/cavar/pg2tei/TEIDoc.java:413-421 | langUsage present exactly when a language code is set, naming the code and its display name plus "." |
| `TeiDocFacts.TextClassOf` | src/me/cavar/pg2tei/TEIDoc.java:423-450 | profileDesc/textClass is `TextClass` of the record |
| `TeiDocFacts.KeywordsOf` | src/me/cavar/pg2tei/TEIDoc.java:423-436 | keywords (#lcsh) hold one term per heading in order, or one empty term |
| `TeiDocFacts.ClassCodesOf` | src/me/cavar/pg2tei/TEIDoc.java:438-449 | classCode #lc present exactly when LCC is set, #pg exactly when the category is, in that order |

## Left out

- Network I/O: `BookRDF.loadRDF`'s HTTP fetch and `HTMLBook.loadHTML`'s connection are not modelled. The parsed descriptor and the fetched text are inputs (`World.descriptor`, `World.fetched`). Character decoding by the book's encoding is part of that input.
- java.net.URL parsing is an input (`urlAccepted`). The URL grammar is not modelled.
- File I/O is not modelled: the existence check of the two output files (an input, `filesExist`), `mkdirs`, and the writes of the HTML, TEI and RDF files. The length of the written TEI file is an input (`xmlSize`).
- The external `textutil` and `odttotei` processes and the parse of their output are not modelled. The converted document is an input (`World.converted`).
- XML serialisation is not modelled: `getTEIXMLString`, `linearize`, the Transformer setup, and the `replaceAll` of `file:///…/id/` references in the serialised text.
- `importNode` and `normalize()` are not modelled. The body's `text` element is appended as a value.
- Namespaces are not modelled. Elements are matched by qualified name, as `getElementsByTagName` does, and the XPath `.//rdf:value/text()` is modelled as the text children of `rdf:value` elements.
- `Locale.getDisplayLanguage` and the dates from `new Date()` are parameters (`HeaderEnv.displayLanguage`, `HeaderEnv.today`, `World.now`).
- `String.equalsIgnoreCase` is modelled with ASCII case folding. The constant tag names it compares against are ASCII, but a qualified name read from the catalog need not be: Java also folds some non-ASCII letters (a dotless `ı` in `dc:tıtle` matches `dc:title`), while the model treats such a name as an unknown tag.
- The SAX driver `parseDocument` and the getters `getEntryCounter` and `getDOM` are not modelled. A sequence of events folded by `Run` stands in for the driver.
- `getPrettyPrint`, logging and `System.out` output are not modelled.
- StartElement (`RdfParser.RDFParser.StartElement`): `entryCounter` is unbounded. The wrap-around of Java's `int` after 2^31 - 1 entries is not modelled.
- An exception that escapes a callback is modelled as an outcome: parseInt's NumberFormatException (`thrown`), the index error in `formatURLsFromDoc` (`DescriptorThrew`), and a DOM error in `addDocumentInfo` (descriptor `None`). The ArrayIndexOutOfBoundsException that `genTEIXMLDom` throws for a title made only of line breaks (TEIDoc.java:210-219) is not an outcome of the main path: it is exhibited by `TeiDoc.NewlineTitleThrows`, and the main path builds the corrected header instead (see the lines below and Findings). What the SAX parser does after such an exception is not modelled.
- `genTEIXMLDom`'s ParserConfigurationException cannot occur with the default factory and is not modelled.
- BuildMainTitles (`TeiDoc.TEIDoc.BuildMainTitles`): its ensures promises the corrected title split: a last title made only of line breaks gives an empty main title (`TitleLines`), where the code throws ArrayIndexOutOfBoundsException at TEIDoc.java:218 and no header is built (modelled as written by `TeiDoc.FullTitleChildrenAsWritten`).
- BuildTitleStmt (`TeiDoc.TEIDoc.BuildTitleStmt`): its ensures promises the titleStmt built with the corrected title split: a last title made only of line breaks gives an empty main title (`TitleLines`), where the code throws ArrayIndexOutOfBoundsException at TEIDoc.java:218 and no header is built (modelled as written by `TeiDoc.FullTitleChildrenAsWritten`).
- GenTEIXMLDom (`TeiDoc.TEIDoc.GenTEIXMLDom`): its ensures promises the header built with the corrected title split: a last title made only of line breaks gives an empty main title (`TitleLines`), where the code throws ArrayIndexOutOfBoundsException at TEIDoc.java:218 and no header is built (modelled as written by `TeiDoc.FullTitleChildrenAsWritten`).
- AddDocumentInfo (`BookRdf.BookRDF.AddDocumentInfo`): its ensures promises the corrected `dcterms:modified` stamp (`Stamp`, `yyyy-MM-dd'T'HH:mm:ss`), where the code writes `yyyyy-mm-dd'T'hh:mm:ss`: a five-digit year, the minutes in the month's place and a 12-hour clock (BookRDF.java:182-184, modelled as written by `BookRdf.StampAsWritten`).
- Extended (`RdfParser.Extended`): the descriptor after addDocumentInfo carries the corrected `dcterms:modified` stamp (`Stamp`, `yyyy-MM-dd'T'HH:mm:ss`), where the code writes `yyyyy-mm-dd'T'hh:mm:ss`: a five-digit year, the minutes in the month's place and a 12-hour clock (BookRDF.java:182-184, modelled as written by `BookRdf.StampAsWritten`).
- WriteDom (`RdfParser.RDFParser.WriteDom`): its ensures promises the header built with the corrected title split; for a title made only of line breaks the code throws instead (TEIDoc.java:218).
- Publish (`RdfParser.RDFParser.Publish`): its ensures promise the header built with the corrected title split and the descriptor extended with the corrected stamp; the code throws for a title made only of line breaks (TEIDoc.java:218) and writes the `yyyyy-mm-dd'T'hh:mm:ss` stamp (BookRDF.java:182-184).
- ConvertHtml (`RdfParser.RDFParser.ConvertHtml`): inherits Publish's corrected title split and corrected stamp.
- Convert (`RdfParser.RDFParser.Convert`): inherits Publish's corrected title split and corrected stamp in its HTML branch.
- EndEntry (`RdfParser.RDFParser.EndEntry`): inherits Publish's corrected title split and corrected stamp; where the code throws for a title made only of line breaks, the model reports the entry converted.
- CloseEntry (`RdfParser.RDFParser.CloseEntry`): inherits EndEntry's corrected title split and corrected stamp.
- EndElement (`RdfParser.RDFParser.EndElement`): inherits CloseEntry's corrected title split and corrected stamp; the exception the code raises from `endElement` for a title made only of line breaks is not an outcome.
- The `issued` field is read by `extractMetaInfo` but never used by the handler (RDFParser.java:251-252). The model reads it and does nothing else with it.

## Findings

| source | as written | input that shows it | evidently intended | confidence | as-written member | corrected member |
|---|---|---|---|---|---|---|
| src/me/cavar/pg2tei/TEIDoc.java:210-219 | a last title that contains "\n" is split with `split("\n")` and `subStrs[0]` is read; `split` drops trailing empty strings, so a title made only of line breaks gives an empty array and ArrayIndexOutOfBoundsException escapes `genTEIXMLDom` | a title "\n" | an empty main title followed by the alt title | not executed | `TeiDoc.NewlineTitleThrows` | `TeiDocFacts.NewlineTitleCorrected` |
| src/me/cavar/pg2tei/BookRDF.java:181-184 | the `dcterms:modified` stamp uses the patterns `yyyyy-mm-dd` and `hh:mm:ss`: a five-digit year, minutes (`mm`) where the month belongs, and a 12-hour clock, although the element is typed xsd:dateTime | 2004-09-14 19:51:46 gives 02004-51-14T07:51:46 | `yyyy-MM-dd'T'HH:mm:ss`, i.e. 2004-09-14T19:51:46 | not executed | `BookRdf.StampAsWrittenExample` | `BookRdf.StampFields` |
