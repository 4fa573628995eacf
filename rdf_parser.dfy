/**
 * RDFParser: the SAX handler that walks the Project Gutenberg catalog.
 *
 * The handler keeps a character buffer, an entry counter, the `entryFound` flag and
 * five context flags, and fills one TEIDoc record per `pgterms:etext` element. When an
 * entry ends it reads the book's own descriptor, merges its meta information into the
 * record, picks the HTML edition, and builds the TEI document.
 *
 * The state the callbacks change is abstracted by `ParserState`; `StartStep`,
 * `CharsStep` and `EndStep` say what one event does to it, and the class's callbacks
 * are proved to do exactly that. The lemmas state what the handler promises about
 * those steps. Everything the entry end takes from outside (whether the output files
 * exist, the URL grammar, the fetched descriptor and HTML text, the external
 * conversion, the clock, the size of the written file) is a `World` parameter.
 */
module RdfParser {
  import opened Wrappers
  import opened Strings
  import opened XmlTree
  import opened TeiDoc
  import opened BookRdf
  import opened HtmlBook

  // ---------------------------------------------------------------------------
  // Tag names
  // ---------------------------------------------------------------------------

  /** The element names the handler reacts to, and every other name. */
  datatype Tag =
    | Etext | Language | W3CDTF | ISO639 | LCSH | LCC | DcType | Rights
    | Publisher | Title | Creator | FriendlyTitle | Value | TableOfContents | Description
    | Other

  /** The name each tag stands for; `Other` stands for every name not listed. */
  function NameOf(t: Tag): string {
    match t
    case Etext => "pgterms:etext"
    case Language => "dc:language"
    case W3CDTF => "dcterms:W3CDTF"
    case ISO639 => "dcterms:ISO639-2"
    case LCSH => "dcterms:LCSH"
    case LCC => "dcterms:LCC"
    case DcType => "dc:type"
    case Rights => "dc:rights"
    case Publisher => "dc:publisher"
    case Title => "dc:title"
    case Creator => "dc:creator"
    case FriendlyTitle => "pgterms:friendlytitle"
    case Value => "rdf:value"
    case TableOfContents => "dc:tableOfContents"
    case Description => "dc:description"
    case Other => ""
  }

  /** The order the names are tried in, `Other` last. */
  function Next(t: Tag): Tag {
    match t
    case Etext => Language
    case Language => W3CDTF
    case W3CDTF => ISO639
    case ISO639 => LCSH
    case LCSH => LCC
    case LCC => DcType
    case DcType => Rights
    case Rights => Publisher
    case Publisher => Title
    case Title => Creator
    case Creator => FriendlyTitle
    case FriendlyTitle => Value
    case Value => TableOfContents
    case TableOfContents => Description
    case Description => Other
    case Other => Other
  }

  /** How many names are still to be tried from `t` on. */
  function Rank(t: Tag): nat {
    match t
    case Etext => 15
    case Language => 14
    case W3CDTF => 13
    case ISO639 => 12
    case LCSH => 11
    case LCC => 10
    case DcType => 9
    case Rights => 8
    case Publisher => 7
    case Title => 6
    case Creator => 5
    case FriendlyTitle => 4
    case Value => 3
    case TableOfContents => 2
    case Description => 1
    case Other => 0
  }

  /** The first tag from `t` on whose name equals `qName` ignoring case. */
  function FirstFrom(qName: string, t: Tag): Tag
    decreases Rank(t)
  {
    if t == Other then Other
    else if EqualsIgnoreCase(qName, NameOf(t)) then t
    else FirstFrom(qName, Next(t))
  }

  /**
   * Which of the names `qName` is. The callbacks' else-if chains compare `qName` with
   * these names one after the other; since no two names are equal ignoring case, the
   * order does not matter (TagOfIff).
   */
  function TagOf(qName: string): Tag {
    FirstFrom(qName, Etext)
  }

  // ---------------------------------------------------------------------------
  // The pattern \d+$ and Integer.parseInt
  // ---------------------------------------------------------------------------

  /** The line terminators of java.util.regex outside UNIX_LINES mode. */
  predicate IsLineTerminator(c: char) {
    c == '\n' || c == '\r' || c == '\U{85}' || c == '\U{2028}' || c == '\U{2029}'
  }

  /** `$` without MULTILINE at position `e`: the end of input, or before a final line terminator. */
  predicate DollarAt(s: string, e: nat) {
    e == |s|
    || (e + 1 == |s| && IsLineTerminator(s[e]) && !(s[e] == '\n' && e > 0 && s[e - 1] == '\r'))
    || (e + 2 == |s| && s[e] == '\r' && s[e + 1] == '\n')
  }

  /** `\d+$` matches the region s[i..e]. */
  predicate DigitsMatch(s: string, i: nat, e: nat) {
    i < e <= |s| && (forall k :: i <= k < e ==> IsDigit(s[k])) && DollarAt(s, e)
  }

  /** The only place a digit can be followed by `$`, if there is one. */
  function DigitsEnd(s: string): Option<nat> {
    var n := |s|;
    if n > 0 && IsDigit(s[n - 1]) then Some(n)
    else if n > 1 && IsLineTerminator(s[n - 1]) && IsDigit(s[n - 2]) then Some(n - 1)
    else if n > 2 && s[n - 2] == '\r' && s[n - 1] == '\n' && IsDigit(s[n - 3]) then Some(n - 2)
    else None
  }

  /** The start of the run of digits that ends at `e`. */
  function RunStart(s: string, e: nat): (i: nat)
    requires e <= |s|
    ensures i <= e && forall k :: i <= k < e ==> IsDigit(s[k])
    decreases e
  {
    if e > 0 && IsDigit(s[e - 1]) then RunStart(s, e - 1) else e
  }

  /** `matcher.find()` for `\d+$`: the matched digits, if any. */
  function TrailingDigits(s: string): (r: Option<string>)
    ensures r.Some? ==> |r.value| > 0 && AllDigits(r.value)
  {
    match DigitsEnd(s)
    case None => None
    case Some(e) =>
      assert IsDigit(s[e - 1]);
      Some(s[RunStart(s, e)..e])
  }

  /** Integer.MAX_VALUE: Integer.parseInt throws NumberFormatException beyond it. */
  const MaxInt: nat := 0x7fff_ffff

  // ---------------------------------------------------------------------------
  // The attributes of a start tag
  // ---------------------------------------------------------------------------

  /** The record after the attribute loop of a pgterms:etext start, and whether parseInt threw. */
  datatype IdRead = IdRead(rec: EntryRecord, thrown: bool)

  /**
   * The attributes read in order: every rdf:ID sets `id`, and its trailing digits, when
   * it has any, set `idN`; a number beyond int range throws and ends the loop.
   */
  function ReadIds(attrs: seq<Attr>, rec: EntryRecord): IdRead
    decreases |attrs|
  {
    if |attrs| == 0 then IdRead(rec, false)
    else if !EqualsIgnoreCase(attrs[0].name, "rdf:ID") then ReadIds(attrs[1..], rec)
    else
      var rec1 := rec.(id := Some(attrs[0].value));
      match TrailingDigits(attrs[0].value)
      case None => ReadIds(attrs[1..], rec1)
      case Some(d) =>
        if DigitsValue(d) > MaxInt then IdRead(rec1, true)
        else ReadIds(attrs[1..], rec1.(idN := DigitsValue(d)))
  }

  /** The values of the rdf:resource attributes, in order. */
  function Resources(attrs: seq<Attr>): seq<string>
    decreases |attrs|
  {
    if |attrs| == 0 then []
    else
      var a := attrs[|attrs| - 1];
      Resources(attrs[..|attrs| - 1]) + (if EqualsIgnoreCase(a.name, "rdf:resource") then [a.value] else [])
  }

  // ---------------------------------------------------------------------------
  // The handler's state and the events
  // ---------------------------------------------------------------------------

  /** The five context flags: which element a following rdf:value belongs to. */
  datatype Flags = Flags(
    languageTag: bool,
    subjectTag: bool,
    subjectLCCTag: bool,
    projGCategory: bool,
    dcCreated: bool)

  const NoFlags := Flags(false, false, false, false, false)

  /** The fields the callbacks change; `record` is the current TEIDoc, unset before the first entry. */
  datatype ParserState = ParserState(
    charBuf: string,
    entryCounter: nat,
    entryFound: bool,
    flags: Flags,
    record: Option<EntryRecord>)

  /** Inside an entry there is a record to fill. */
  predicate Consistent(st: ParserState) {
    st.entryFound ==> st.record.Some?
  }

  /** The state the constructor leaves. */
  const Initial := ParserState("", 0, false, NoFlags, None)

  /** The flag a start tag inside an entry sets. */
  function FlagsStart(f: Flags, tag: Tag): Flags {
    if tag == Language then f.(languageTag := true)
    else if tag == W3CDTF then f.(dcCreated := true)
    else if tag == LCSH then f.(subjectTag := true)
    else if tag == LCC then f.(subjectLCCTag := true)
    else if tag == DcType then f.(projGCategory := true)
    else f
  }

  /** What a start tag inside an entry adds to the record: the ISO 639-2 marker under dc:language, the rights resources. */
  function RecordStart(rec: EntryRecord, f: Flags, tag: Tag, attrs: seq<Attr>): EntryRecord {
    if tag == ISO639 then (if f.languageTag then rec.(languageISO := Some("ISO639-2")) else rec)
    else if tag == Rights then rec.(rights := rec.rights + Resources(attrs))
    else rec
  }

  /** A start event's new state, and whether parseInt threw out of the handler. */
  datatype Started = Started(st: ParserState, thrown: bool)

  /** startElement: clear the buffer, then open an entry, ignore the tag outside one, or read it. */
  function StartStep(st: ParserState, tag: Tag, attrs: seq<Attr>): Started
    requires Consistent(st)
  {
    var st0 := st.(charBuf := "");
    if tag == Etext then
      var r := ReadIds(attrs, EmptyRecord);
      Started(st0.(entryFound := true, entryCounter := st.entryCounter + 1, record := Some(r.rec)), r.thrown)
    else if !st.entryFound then Started(st0, false)
    else
      Started(st0.(flags := FlagsStart(st.flags, tag), record := Some(RecordStart(st.record.value, st.flags, tag, attrs))), false)
  }

  /** characters: the text is appended to the buffer. */
  function CharsStep(st: ParserState, text: string): ParserState {
    st.(charBuf := st.charBuf + text)
  }

  /** The flag an end tag inside an entry clears. */
  function FlagsEnd(f: Flags, tag: Tag): Flags {
    if tag == W3CDTF then f.(dcCreated := false)
    else if tag == Language then f.(languageTag := false)
    else if tag == LCSH then f.(subjectTag := false)
    else if tag == LCC then f.(subjectLCCTag := false)
    else if tag == DcType then f.(projGCategory := false)
    else f
  }

  /** The end of rdf:value: the text goes to the field of the first flag set, by priority. */
  function RouteValue(rec: EntryRecord, f: Flags, text: string): EntryRecord {
    if f.languageTag then rec.(languageCode := Some(text))
    else if f.subjectTag then rec.(subjectHeadingsLCC := rec.subjectHeadingsLCC + [text])
    else if f.subjectLCCTag then rec.(classificationLCC := Some(text))
    else if f.projGCategory then rec.(projGCategory := Some(text))
    else if f.dcCreated then rec.(createdW3CDTF := Some(text))
    else rec
  }

  /** The end tags whose buffered text goes to a field of its own. */
  predicate IsTextTag(tag: Tag) {
    tag == Publisher || tag == Title || tag == Creator || tag == FriendlyTitle
    || tag == TableOfContents || tag == Description
  }

  /** The field a text tag's end sets from the buffered text. */
  function TextEnd(rec: EntryRecord, text: string, tag: Tag): EntryRecord {
    match tag
    case Publisher => rec.(publisher := Some(text))
    case Title => rec.(title := rec.title + [text])
    case Creator => rec.(creator := Some(text))
    case FriendlyTitle => rec.(friendlyTitle := Some(text))
    case TableOfContents => rec.(toc := Some(text))
    case Description => rec.(description := Some(text))
    case _ => rec
  }

  /** What an end tag inside an entry does to the record: a text field, or the rdf:value routing. */
  function RecordEnd(rec: EntryRecord, f: Flags, text: string, tag: Tag): EntryRecord {
    if IsTextTag(tag) then TextEnd(rec, text, tag)
    else if tag == Value then RouteValue(rec, f, text)
    else rec
  }

  // ---------------------------------------------------------------------------
  // The end of an entry
  // ---------------------------------------------------------------------------

  /** What the end of an entry takes from outside the handler. */
  datatype World = World(
    /** Both output files of the entry already exist. */
    filesExist: bool,
    /** java.net.URL accepts the address. */
    urlAccepted: string -> bool,
    /** The document element of the fetched descriptor, when it parses. */
    descriptor: Option<Node>,
    /** The text of the HTML edition, decoded in its character set. */
    fetched: string,
    /** The document element the external HTML-to-TEI conversion leaves, when it parses. */
    converted: Option<Node>,
    /** Language names and today's date for the header. */
    env: HeaderEnv,
    /** The length of the written TEI file. */
    xmlSize: nat,
    /** The clock when the descriptor gets its new file. */
    now: DateTime)

  /**
   * How an entry ends: both files there already; the index error escaping
   * BookRDF.process; no HTML edition (another edition or none); no converted body;
   * or converted from the body of the HTML edition, with the TEI document (TeiOf)
   * and the extended descriptor written (the descriptor `None` when addDocumentInfo
   * threw after the TEI file was written).
   */
  datatype EntryEnd =
    | Skipped
    | DescriptorThrew
    | NotHtml
    | NoBody
    | Converted(fileID: string, body: Node, descriptor: Option<Node>)

  /** The record after an entry end, and how it ended. */
  datatype Ended = Ended(rec: EntryRecord, outcome: EntryEnd)

  /** What BookRDF.process leaves: the loaded document, the format map, and the meta fields. */
  datatype Descriptor = Descriptor(
    doc: Option<Node>, formats: Formats,
    language: Option<string>, publisher: Option<string>, rights: Option<string>, title: Option<string>)

  /** A new BookRDF for `url`, processed. The meta fields stay unset when the format loop threw. */
  function ReadDescriptor(url: string, w: World): Descriptor {
    var doc := if w.urlAccepted(url) && w.descriptor.Some? then w.descriptor else None;
    match doc
    case None => Descriptor(None, Formats(map[], false), None, None, None, None)
    case Some(root) =>
      var f := FormatsOf(map[], FactsOf(ElementsNamed(root, "pgterms:file")));
      if f.thrown then Descriptor(doc, f, None, None, None, None)
      else Descriptor(doc, f,
        MetaField(root, "dcterms:language", None), MetaField(root, "dcterms:publisher", None),
        MetaField(root, "dcterms:rights", None), MetaField(root, "dcterms:title", None))
  }

  /** A list of the value, or the empty list. */
  function ListOf(o: Option<string>): seq<string> {
    if o.Some? then [o.value] else []
  }

  /**
   * The descriptor's meta information copied into the record: the language and the
   * publisher only where the catalog left them unset, the rights and the title added.
   */
  function Merge(rec: EntryRecord, d: Descriptor): EntryRecord {
    rec.(
      languageCode := if d.language.Some? && rec.languageCode.None? then d.language else rec.languageCode,
      publisher := if d.publisher.Some? && rec.publisher.None? then d.publisher else rec.publisher,
      rights := rec.rights + ListOf(d.rights),
      title := rec.title + ListOf(d.title))
  }

  /** The body's `text` element appended to the TEI document's root, when there is exactly one. */
  function WithText(tei: TeiDocument, body: Node): TeiDocument
    requires tei.root.Element?
  {
    var texts := ElementsNamed(body, "text");
    if |texts| == 1 then tei.(root := AppendChild(tei.root, texts[0])) else tei
  }

  /** The TEI document written for a record and a converted body: the header, and the body's text. */
  function TeiOf(rec: EntryRecord, body: Node, env: HeaderEnv): TeiDocument {
    WithText(Header(rec, env), body)
  }

  /** The address the converted documents are published under. */
  const PublishURL := "http://ltl.emich.edu/gutenberg/"

  /** addDocumentInfo on the descriptor: the extended document, or `None` when it threw. */
  function Extended(doc: Option<Node>, fileID: string, w: World): Option<Node> {
    match doc
    case None => None
    case Some(root) =>
      var e := AddInfo(root, PublishURL, w.xmlSize, "utf-8", fileID, Stamp(w.now));
      if e.thrown then None else Some(e.root)
  }

  /** The `<pre>` paragraphs of a loaded HTMLBook for `url`. */
  function HtmlParas(url: string, w: World): seq<string> {
    if w.urlAccepted(url) then PreParas(ReadLines(w.fetched), 0) else []
  }

  /** The converted body of a loaded HTMLBook for `url`. */
  function HtmlBody(url: string, w: World): Option<Node> {
    if w.urlAccepted(url) then w.converted else None
  }

  /** The end of a pgterms:etext element, for the record `rec`. */
  function FinishEntry(rec: EntryRecord, ebookURLStr: string, w: World): Ended {
    var fileID := NatToString(rec.idN);
    if w.filesExist then Ended(rec, Skipped)
    else
      var d := ReadDescriptor(ebookURLStr + fileID + ".rdf", w);
      if d.formats.thrown then Ended(rec, DescriptorThrew)
      else ConvertEntry(Merge(rec, d), d, fileID, w)
  }

  /** From the merged record on: the HTML edition is required, then its body is converted. */
  function ConvertEntry(rec: EntryRecord, d: Descriptor, fileID: string, w: World): Ended {
    if HTML !in d.formats.hm then Ended(rec, NotHtml)
    else
      var url := d.formats.hm[HTML].url;
      var rec2 := rec.(rights := rec.rights + HtmlParas(url, w));
      match HtmlBody(url, w)
      case None => Ended(rec2, NoBody)
      case Some(body) =>
        Ended(rec2, Converted(fileID, body, Extended(d.doc, fileID, w)))
  }

  /** An end event's new state, and how the entry ended when it was pgterms:etext. */
  datatype EndResult = EndResult(st: ParserState, outcome: Option<EntryEnd>)

  /** The entry end of a handler for the catalog at `ebookURLStr`, in the world `w`. */
  function Finisher(ebookURLStr: string, w: World): EntryRecord -> Ended {
    rec => FinishEntry(rec, ebookURLStr, w)
  }

  /**
   * endElement: nothing outside an entry; the entry end, `finish` of the record; or
   * the chain of field ends. The handler's own entry end is `Finisher`.
   */
  function EndStep(st: ParserState, tag: Tag, finish: EntryRecord -> Ended): EndResult
    requires Consistent(st)
  {
    if !st.entryFound then EndResult(st, None)
    else if tag == Etext then
      var e := finish(st.record.value);
      EndResult(st.(entryFound := false, record := Some(e.rec)), Some(e.outcome))
    else
      EndResult(st.(flags := FlagsEnd(st.flags, tag), record := Some(RecordEnd(st.record.value, st.flags, st.charBuf, tag))), None)
  }

  // ---------------------------------------------------------------------------
  // The handler as an object
  // ---------------------------------------------------------------------------

  class RDFParser {
    var charBuf: string
    var curTEIDoc: TEIDoc?
    var entryCounter: nat
    var languageTag: bool
    var subjectTag: bool
    var subjectLCCTag: bool
    var projGCategory: bool
    var dcCreated: bool
    var entryFound: bool
    /** The address the descriptors are fetched from: the file ID and ".rdf" are appended. */
    var ebookURLStr: string
    var outputFolder: string

    /** Inside an entry there is a record. */
    predicate Valid()
      reads this
    {
      entryFound ==> curTEIDoc != null
    }

    /** The five context flags. */
    function CurFlags(): Flags
      reads this
    {
      Flags(languageTag, subjectTag, subjectLCCTag, projGCategory, dcCreated)
    }

    /** The state the callbacks change. */
    function State(): (st: ParserState)
      reads this, curTEIDoc
      ensures Valid() ==> Consistent(st)
    {
      ParserState(charBuf, entryCounter, entryFound, CurFlags(),
        if curTEIDoc == null then None else Some(curTEIDoc.Record()))
    }

    constructor (ebookURLStr: string, outputFolder: string)
      ensures Valid() && State() == Initial && curTEIDoc == null
      ensures this.ebookURLStr == ebookURLStr && this.outputFolder == outputFolder
    {
      this.ebookURLStr := ebookURLStr;
      this.outputFolder := outputFolder;
      charBuf := "";
      curTEIDoc := null;
      entryCounter := 0;
      languageTag, subjectTag, subjectLCCTag, projGCategory, dcCreated := false, false, false, false, false;
      entryFound := false;
    }

    /** startElement. `thrown` is the NumberFormatException of an id beyond int range. */
    method StartElement(qName: string, attrs: seq<Attr>) returns (thrown: bool)
      requires Valid()
      modifies this, curTEIDoc
      ensures Valid() && ebookURLStr == old(ebookURLStr) && outputFolder == old(outputFolder)
      ensures var r := StartStep(old(State()), TagOf(qName), attrs); State() == r.st && thrown == r.thrown
      ensures TagOf(qName) == Etext ==> fresh(curTEIDoc)
      ensures TagOf(qName) != Etext ==> curTEIDoc == old(curTEIDoc)
      ensures curTEIDoc != null && !fresh(curTEIDoc) ==> curTEIDoc.mydom == old(curTEIDoc.mydom)
    {
      if |charBuf| > 0 {
        charBuf := "";
      }
      var tag := TagOf(qName);
      if tag == Etext {
        thrown := OpenEntry(attrs);
        return;
      }
      thrown := false;
      if !entryFound {
        return;
      }
      StartInside(tag, attrs);
    }

    /** The pgterms:etext branch of startElement: a fresh record, read from the attributes. */
    method OpenEntry(attrs: seq<Attr>) returns (thrown: bool)
      modifies this`entryFound, this`entryCounter, this`curTEIDoc
      ensures Valid() && fresh(curTEIDoc)
      ensures var r := ReadIds(attrs, EmptyRecord);
                State() == old(State()).(entryFound := true, entryCounter := old(entryCounter) + 1, record := Some(r.rec)) &&
                thrown == r.thrown
    {
      entryFound := true;
      entryCounter := entryCounter + 1;
      var doc := new TEIDoc();
      curTEIDoc := doc;
      thrown := ReadIdAttributes(doc, attrs);
    }

    /** A start tag inside an entry, other than pgterms:etext. */
    method StartInside(tag: Tag, attrs: seq<Attr>)
      requires Valid() && entryFound
      modifies this`languageTag, this`subjectTag, this`subjectLCCTag, this`projGCategory, this`dcCreated, curTEIDoc
      ensures State() == old(State()).(flags := FlagsStart(old(CurFlags()), tag),
                                       record := Some(RecordStart(old(curTEIDoc.Record()), old(CurFlags()), tag, attrs)))
      ensures curTEIDoc.mydom == old(curTEIDoc.mydom)
    {
      StartField(curTEIDoc, tag, attrs);
    }

    /**
     * The chain of start tags inside an entry, on the current record `doc`. The chain's
     * branches test distinct names, so they are grouped here: the two that touch the
     * record, and the five that raise a context flag.
     */
    method StartField(doc: TEIDoc, tag: Tag, attrs: seq<Attr>)
      modifies this`languageTag, this`subjectTag, this`subjectLCCTag, this`projGCategory, this`dcCreated, doc`languageISO, doc`rights
      ensures CurFlags() == FlagsStart(old(CurFlags()), tag)
      ensures doc.Record() == RecordStart(old(doc.Record()), old(CurFlags()), tag, attrs)
    {
      if tag == ISO639 || tag == Rights {
        StartRecordField(doc, languageTag, tag, attrs);
      } else {
        StartFlag(tag);
      }
    }

    /** pgterms:ISO639-2, which marks the language only under dc:language, and dc:rights. */
    static method StartRecordField(doc: TEIDoc, languageTag: bool, tag: Tag, attrs: seq<Attr>)
      requires tag == ISO639 || tag == Rights
      modifies doc`languageISO, doc`rights
      ensures doc.languageISO == (if tag == ISO639 && languageTag then Some("ISO639-2") else old(doc.languageISO))
      ensures doc.rights == (if tag == Rights then old(doc.rights) + Resources(attrs) else old(doc.rights))
    {
      if tag == ISO639 {
        if languageTag {
          doc.languageISO := Some("ISO639-2");
        }
      } else {
        AddResources(doc, attrs);
      }
    }

    /** The five start tags that raise a context flag. */
    method StartFlag(tag: Tag)
      modifies this`languageTag, this`subjectTag, this`subjectLCCTag, this`projGCategory, this`dcCreated
      ensures CurFlags() == FlagsStart(old(CurFlags()), tag)
    {
      if tag == Language {
        languageTag := true;
      } else if tag == W3CDTF {
        dcCreated := true;
      } else if tag == LCSH {
        subjectTag := true;
      } else if tag == LCC {
        subjectLCCTag := true;
      } else if tag == DcType {
        projGCategory := true;
      }
    }

    /** The attribute loop of a pgterms:etext start. */
    static method ReadIdAttributes(doc: TEIDoc, attrs: seq<Attr>) returns (thrown: bool)
      modifies doc`id, doc`idN
      ensures var r := ReadIds(attrs, old(doc.Record())); doc.Record() == r.rec && thrown == r.thrown
    {
      for i := 0 to |attrs|
        invariant ReadIds(attrs[i..], doc.Record()) == ReadIds(attrs, old(doc.Record()))
      {
        assert attrs[i..][1..] == attrs[i + 1..];
        var a := attrs[i];
        if EqualsIgnoreCase(a.name, "rdf:ID") {
          doc.id := Some(a.value);
          var m := TrailingDigits(a.value);
          if m.Some? {
            var n := DigitsValue(m.value);
            if n > MaxInt {
              return true;
            }
            doc.idN := n;
          }
        }
      }
      return false;
    }

    /** The attribute loop of a dc:rights start. */
    static method AddResources(doc: TEIDoc, attrs: seq<Attr>)
      modifies doc`rights
      ensures doc.rights == old(doc.rights) + Resources(attrs)
    {
      for i := 0 to |attrs|
        invariant doc.rights == old(doc.rights) + Resources(attrs[..i])
      {
        assert attrs[..i + 1][..i] == attrs[..i];
        var a := attrs[i];
        if EqualsIgnoreCase(a.name, "rdf:resource") {
          doc.rights := doc.rights + [a.value];
        }
      }
      assert attrs[..|attrs|] == attrs;
    }

    /** characters. */
    method Characters(text: string)
      modifies this`charBuf
      ensures State() == CharsStep(old(State()), text)
    {
      charBuf := charBuf + text;
    }

    /** endElement. */
    method EndElement(qName: string, w: World) returns (outcome: Option<EntryEnd>)
      requires Valid()
      modifies this, curTEIDoc
      ensures Valid() && curTEIDoc == old(curTEIDoc)
      ensures ebookURLStr == old(ebookURLStr) && outputFolder == old(outputFolder)
      ensures var r := EndStep(old(State()), TagOf(qName), Finisher(old(ebookURLStr), w)); State() == r.st && outcome == r.outcome
      ensures curTEIDoc != null ==>
                curTEIDoc.mydom == (if outcome.Some? && outcome.value.Converted?
                                    then Some(TeiOf(curTEIDoc.Record(), outcome.value.body, w.env))
                                    else old(curTEIDoc.mydom))
    {
      if !entryFound {
        return None;
      }
      var tag := TagOf(qName);
      if tag == Etext {
        var e := CloseEntry(w);
        return Some(e);
      }
      EndInside(tag);
      return None;
    }

    method EndInside(tag: Tag)
      requires Valid() && entryFound
      modifies this`languageTag, this`subjectTag, this`subjectLCCTag, this`projGCategory, this`dcCreated, curTEIDoc
      ensures State() == old(State()).(flags := FlagsEnd(old(CurFlags()), tag),
                                       record := Some(RecordEnd(old(curTEIDoc.Record()), old(CurFlags()), charBuf, tag)))
      ensures curTEIDoc.mydom == old(curTEIDoc.mydom)
    {
      EndField(curTEIDoc, tag);
    }

    /** The pgterms:etext branch of endElement: the entry is closed and converted. */
    method CloseEntry(w: World) returns (outcome: EntryEnd)
      requires Valid() && entryFound
      modifies this`entryFound, curTEIDoc
      ensures var e := FinishEntry(old(curTEIDoc.Record()), ebookURLStr, w);
                State() == old(State()).(entryFound := false, record := Some(e.rec)) && outcome == e.outcome
      ensures curTEIDoc.mydom == (if outcome.Converted? then Some(TeiOf(curTEIDoc.Record(), outcome.body, w.env))
                                  else old(curTEIDoc.mydom))
    {
      entryFound := false;
      outcome := EndEntry(curTEIDoc, ebookURLStr, outputFolder, w);
    }

    /**
     * The chain of end tags inside an entry, other than pgterms:etext, on the current
     * record `doc`. The chain's branches test distinct names, so they are grouped here:
     * the text fields, rdf:value, and the context flags.
     */
    method EndField(doc: TEIDoc, tag: Tag)
      modifies this`languageTag, this`subjectTag, this`subjectLCCTag, this`projGCategory, this`dcCreated
      modifies doc`publisher, doc`title, doc`creator, doc`friendlyTitle, doc`toc, doc`description
      modifies doc`languageCode, doc`subjectHeadingsLCC, doc`classificationLCC, doc`projGCategory, doc`createdW3CDTF
      ensures CurFlags() == FlagsEnd(old(CurFlags()), tag)
      ensures doc.Record() == RecordEnd(old(doc.Record()), old(CurFlags()), charBuf, tag)
    {
      if IsTextTag(tag) {
        EndText(doc, charBuf, tag);
      } else if tag == Value {
        EndValue(doc, CurFlags(), charBuf);
      } else {
        EndFlag(tag);
      }
    }

    /** The end of a text field: publisher, title, creator, friendly title, contents, description. */
    static method EndText(doc: TEIDoc, text: string, tag: Tag)
      modifies doc`publisher, doc`title, doc`creator, doc`friendlyTitle, doc`toc, doc`description
      ensures doc.Record() == TextEnd(old(doc.Record()), text, tag)
    {
      SetTextField(doc, text, tag);
    }

    /** The if-chain of the text fields, each field stated on its own. */
    static method SetTextField(doc: TEIDoc, text: string, tag: Tag)
      modifies doc`publisher, doc`title, doc`creator, doc`friendlyTitle, doc`toc, doc`description
      ensures doc.publisher == (if tag == Publisher then Some(text) else old(doc.publisher))
      ensures doc.title == (if tag == Title then old(doc.title) + [text] else old(doc.title))
      ensures doc.creator == (if tag == Creator then Some(text) else old(doc.creator))
      ensures doc.friendlyTitle == (if tag == FriendlyTitle then Some(text) else old(doc.friendlyTitle))
      ensures doc.toc == (if tag == TableOfContents then Some(text) else old(doc.toc))
      ensures doc.description == (if tag == Description then Some(text) else old(doc.description))
    {
      if tag == Publisher {
        doc.publisher := Some(text);
      } else if tag == Title {
        doc.title := doc.title + [text];
      } else if tag == Creator {
        doc.creator := Some(text);
      } else if tag == FriendlyTitle {
        doc.friendlyTitle := Some(text);
      } else if tag == TableOfContents {
        doc.toc := Some(text);
      } else if tag == Description {
        doc.description := Some(text);
      }
    }

    /** The end of rdf:value: the text goes to the field of the first context flag set. */
    static method EndValue(doc: TEIDoc, f: Flags, text: string)
      modifies doc`languageCode, doc`subjectHeadingsLCC, doc`classificationLCC, doc`projGCategory, doc`createdW3CDTF
      ensures doc.Record() == RouteValue(old(doc.Record()), f, text)
    {
      if f.languageTag {
        doc.languageCode := Some(text);
      } else if f.subjectTag {
        doc.subjectHeadingsLCC := doc.subjectHeadingsLCC + [text];
      } else if f.subjectLCCTag {
        doc.classificationLCC := Some(text);
      } else if f.projGCategory {
        doc.projGCategory := Some(text);
      } else if f.dcCreated {
        doc.createdW3CDTF := Some(text);
      }
    }

    /** The end of an element that set a context flag. */
    method EndFlag(tag: Tag)
      modifies this`languageTag, this`subjectTag, this`subjectLCCTag, this`projGCategory, this`dcCreated
      ensures CurFlags() == FlagsEnd(old(CurFlags()), tag)
    {
      if tag == W3CDTF {
        dcCreated := false;
      } else if tag == Language {
        languageTag := false;
      } else if tag == LCSH {
        subjectTag := false;
      } else if tag == LCC {
        subjectLCCTag := false;
      } else if tag == DcType {
        projGCategory := false;
      }
    }

    /**
     * The pgterms:etext branch of endElement, from the file ID on. The file writes are
     * the returned outcome.
     */
    static method EndEntry(doc: TEIDoc, ebookURLStr: string, outputFolder: string, w: World)
      returns (outcome: EntryEnd)
      modifies doc
      ensures var e := FinishEntry(old(doc.Record()), ebookURLStr, w); doc.Record() == e.rec && outcome == e.outcome
      ensures doc.mydom == (if outcome.Converted? then Some(TeiOf(doc.Record(), outcome.body, w.env)) else old(doc.mydom))
    {
      var fileID := NatToString(doc.idN);
      if w.filesExist {
        return Skipped;
      }
      var rdfURL := ebookURLStr + fileID + ".rdf";
      var myBookRDF, thrown := ReadAndMerge(doc, rdfURL, w);
      if thrown {
        return DescriptorThrew;
      }
      outcome := Convert(doc, myBookRDF, fileID, outputFolder, w, ReadDescriptor(rdfURL, w));
    }

    /** The descriptor fetched and processed, and its meta information merged into the record. */
    static method ReadAndMerge(doc: TEIDoc, rdfURL: string, w: World) returns (myBookRDF: BookRDF, thrown: bool)
      modifies doc`languageCode, doc`publisher, doc`rights, doc`title
      ensures fresh(myBookRDF)
      ensures var d := ReadDescriptor(rdfURL, w);
                thrown == d.formats.thrown && myBookRDF.mydoc == d.doc && myBookRDF.myHM == d.formats.hm
                && doc.Record() == (if thrown then old(doc.Record()) else Merge(old(doc.Record()), d))
    {
      ghost var d;
      myBookRDF, thrown, d := ReadBook(rdfURL, w);
      if thrown {
        return;
      }
      MergeMeta(doc, myBookRDF, d);
    }

    /** A new BookRDF for the descriptor's address, processed. */
    static method ReadBook(rdfURL: string, w: World) returns (myBookRDF: BookRDF, thrown: bool, ghost d: Descriptor)
      ensures fresh(myBookRDF) && d == ReadDescriptor(rdfURL, w)
      ensures thrown == d.formats.thrown && myBookRDF.mydoc == d.doc && myBookRDF.myHM == d.formats.hm
      ensures !thrown ==>
                myBookRDF.language == d.language && myBookRDF.publisher == d.publisher
                && myBookRDF.rights == d.rights && myBookRDF.title == d.title
    {
      d := ReadDescriptor(rdfURL, w);
      myBookRDF := new BookRDF(rdfURL, w.urlAccepted(rdfURL));
      thrown := myBookRDF.Process(w.descriptor);
    }

    /** The merge of the descriptor's meta fields into the record. */
    static method MergeMeta(doc: TEIDoc, myBookRDF: BookRDF, ghost d: Descriptor)
      requires myBookRDF.language == d.language && myBookRDF.publisher == d.publisher
      requires myBookRDF.rights == d.rights && myBookRDF.title == d.title
      modifies doc`languageCode, doc`publisher, doc`rights, doc`title
      ensures doc.Record() == Merge(old(doc.Record()), d)
    {
      MergeFields(doc, myBookRDF);
    }

    /** The four merge steps, each on its own field. */
    static method MergeFields(doc: TEIDoc, myBookRDF: BookRDF)
      modifies doc`languageCode, doc`publisher, doc`rights, doc`title
      ensures doc.languageCode == (if myBookRDF.language.Some? && old(doc.languageCode).None? then myBookRDF.language
                                   else old(doc.languageCode))
      ensures doc.publisher == (if myBookRDF.publisher.Some? && old(doc.publisher).None? then myBookRDF.publisher
                                else old(doc.publisher))
      ensures doc.rights == old(doc.rights) + ListOf(myBookRDF.rights)
      ensures doc.title == old(doc.title) + ListOf(myBookRDF.title)
    {
      if myBookRDF.language.Some? && doc.languageCode.None? {
        doc.languageCode := myBookRDF.language;
      }
      if myBookRDF.publisher.Some? && doc.publisher.None? {
        doc.publisher := myBookRDF.publisher;
      }
      if myBookRDF.rights.Some? {
        doc.rights := doc.rights + [myBookRDF.rights.value];
      }
      if myBookRDF.title.Some? {
        doc.title := doc.title + [myBookRDF.title.value];
      }
    }

    /** The editions tried in order; only the HTML edition is converted. */
    static method Convert(doc: TEIDoc, myBookRDF: BookRDF, fileID: string, outputFolder: string, w: World,
                          ghost d: Descriptor)
      returns (outcome: EntryEnd)
      requires myBookRDF.mydoc == d.doc && myBookRDF.myHM == d.formats.hm
      modifies doc, myBookRDF
      ensures var e := ConvertEntry(old(doc.Record()), d, fileID, w); doc.Record() == e.rec && outcome == e.outcome
      ensures doc.mydom == (if outcome.Converted? then Some(TeiOf(doc.Record(), outcome.body, w.env)) else old(doc.mydom))
    {
      if HTML in myBookRDF.myHM {
        outcome := ConvertHtml(doc, myBookRDF, fileID, outputFolder, w, d);
      } else if HTML_ZIP in myBookRDF.myHM {
        return NotHtml;
      } else if EPUB in myBookRDF.myHM {
        return NotHtml;
      } else if EPUB_NO_I in myBookRDF.myHM {
        return NotHtml;
      } else {
        return NotHtml;
      }
    }

    /** The HTML edition's branch: load it, then publish its body, when there is one. */
    static method ConvertHtml(doc: TEIDoc, myBookRDF: BookRDF, fileID: string, outputFolder: string, w: World,
                              ghost d: Descriptor)
      returns (outcome: EntryEnd)
      requires myBookRDF.mydoc == d.doc && myBookRDF.myHM == d.formats.hm && HTML in d.formats.hm
      modifies doc, myBookRDF
      ensures var e := ConvertEntry(old(doc.Record()), d, fileID, w); doc.Record() == e.rec && outcome == e.outcome
      ensures doc.mydom == (if outcome.Converted? then Some(TeiOf(doc.Record(), outcome.body, w.env)) else old(doc.mydom))
    {
      var body := LoadEdition(doc, myBookRDF.myHM[HTML], outputFolder, w);
      if body.None? {
        return NoBody;
      }
      outcome := Publish(doc, myBookRDF, body.value, fileID, w, d);
    }

    /** A new HTMLBook for the HTML edition, loaded; its `<pre>` paragraphs added to the rights. */
    static method LoadEdition(doc: TEIDoc, val: FormatEntry, outputFolder: string, w: World)
      returns (body: Option<Node>)
      modifies doc`rights
      ensures doc.rights == old(doc.rights) + HtmlParas(val.url, w)
      ensures body == HtmlBody(val.url, w)
    {
      var myHTMLBook := new HTMLBook(val.url, w.urlAccepted(val.url), outputFolder, doc.idN, val.encoding);
      myHTMLBook.LoadHTML(w.fetched, w.converted);
      AddRights(doc, myHTMLBook.preParagraphs);
      body := myHTMLBook.mydoc;
    }

    /** genTEIXMLDom, then the body's single `text` element appended to the document's root. */
    static method WriteDom(doc: TEIDoc, body: Node, env: HeaderEnv)
      modifies doc`mydom
      ensures doc.mydom == Some(TeiOf(doc.Record(), body, env))
    {
      doc.GenTEIXMLDom(env);
      var tei := doc.mydom.value;
      var nodes := ElementsNamed(body, "text");
      if |nodes| == 1 {
        tei := tei.(root := AppendChild(tei.root, nodes[0]));
        doc.mydom := Some(tei);
      }
    }

    /**
     * The TEI document generated, the body's text appended, the TEI file written, and
     * the descriptor extended with the new file.
     */
    static method Publish(doc: TEIDoc, myBookRDF: BookRDF, body: Node, fileID: string, w: World, ghost d: Descriptor)
      returns (outcome: EntryEnd)
      requires myBookRDF.mydoc == d.doc
      modifies doc`mydom, myBookRDF
      ensures doc.mydom == Some(TeiOf(doc.Record(), body, w.env))
      ensures outcome == Converted(fileID, body, Extended(d.doc, fileID, w))
    {
      WriteDom(doc, body, w.env);
      var rdfThrown := myBookRDF.AddDocumentInfo(PublishURL, w.xmlSize, "utf-8", fileID, w.now);
      outcome := Converted(fileID, body, if rdfThrown then None else myBookRDF.mydoc);
    }

    /** The loop adding the `<pre>` paragraphs to the rights. */
    static method AddRights(doc: TEIDoc, paras: seq<string>)
      modifies doc`rights
      ensures doc.rights == old(doc.rights) + paras
    {
      for i := 0 to |paras|
        invariant doc.rights == old(doc.rights) + paras[..i]
      {
        assert paras[..i + 1] == paras[..i] + [paras[i]];
        doc.rights := doc.rights + [paras[i]];
      }
      assert paras[..|paras|] == paras;
    }
  }
}
