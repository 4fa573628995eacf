/**
 * What the generated TEI header holds, stated by navigating it: `Select` follows a path
 * of element names, taking the first child with each name. The placement lemmas locate
 * each section from the TEI root; the section lemmas say what each section holds.
 */
module TeiDocFacts {
  import opened Wrappers
  import opened Strings
  import opened XmlTree
  import opened TeiDoc

  // ---------------------------------------------------------------------------
  // Placement of the sections
  // ---------------------------------------------------------------------------

  /** The document: one xml-model processing instruction, then a TEI root in the TEI namespace. */
  lemma DocumentShape(r: EntryRecord, env: HeaderEnv)
    ensures Header(r, env).prolog == [XmlModel] && XmlModel.target == "xml-model"
    ensures Header(r, env).root.Element? && Header(r, env).root.name == "TEI"
    ensures Header(r, env).root.attrs == [Attr("xmlns", "http://www.tei-c.org/ns/1.0")]
    ensures Select(Header(r, env).root, ["teiHeader"]) == Some(TeiHeader(r, env))
  {
    assert ["teiHeader"] == ["teiHeader"] + [];
    SelectVia(Header(r, env).root, 0, "teiHeader", []);
  }

  /** Following a path below the teiHeader element. */
  lemma TeiHeaderPath(r: EntryRecord, env: HeaderEnv, rest: seq<string>)
    ensures Select(Header(r, env).root, ["teiHeader"] + rest) == Select(TeiHeader(r, env), rest)
  {
    SelectVia(Header(r, env).root, 0, "teiHeader", rest);
  }

  /** The section at index `k` of the fileDesc, reached by its name. */
  lemma FileDescSection(r: EntryRecord, k: nat, name: string)
    requires k < 3 && name == ["titleStmt", "publicationStmt", "sourceDesc"][k]
    ensures Select(FileDesc(r), [name]) == Some(FileDesc(r).children[k])
  {
    assert [name] == [name] + [];
    SelectVia(FileDesc(r), k, name, []);
  }

  /** The section at index `k` of the teiHeader, reached by its name. */
  lemma TeiHeaderSection(r: EntryRecord, env: HeaderEnv, k: nat, name: string, rest: seq<string>)
    requires k < 4 && name == ["fileDesc", "encodingDesc", "profileDesc", "revisionDesc"][k]
    ensures Select(TeiHeader(r, env), [name] + rest) == Select(TeiHeader(r, env).children[k], rest)
  {
    SelectVia(TeiHeader(r, env), k, name, rest);
  }

  lemma TitleStmtInHeader(r: EntryRecord, env: HeaderEnv)
    ensures Select(Header(r, env).root, ["teiHeader", "fileDesc", "titleStmt"]) == Some(TitleStmt(r))
  {
    TeiHeaderPath(r, env, ["fileDesc", "titleStmt"]);
    TeiHeaderSection(r, env, 0, "fileDesc", ["titleStmt"]);
    FileDescSection(r, 0, "titleStmt");
    assert ["teiHeader"] + ["fileDesc", "titleStmt"] == ["teiHeader", "fileDesc", "titleStmt"];
    assert ["fileDesc"] + ["titleStmt"] == ["fileDesc", "titleStmt"];
  }

  lemma PublicationStmtInHeader(r: EntryRecord, env: HeaderEnv)
    ensures Select(Header(r, env).root, ["teiHeader", "fileDesc", "publicationStmt"]) == Some(PublicationStmt(r))
  {
    TeiHeaderPath(r, env, ["fileDesc", "publicationStmt"]);
    TeiHeaderSection(r, env, 0, "fileDesc", ["publicationStmt"]);
    FileDescSection(r, 1, "publicationStmt");
    assert ["teiHeader"] + ["fileDesc", "publicationStmt"] == ["teiHeader", "fileDesc", "publicationStmt"];
    assert ["fileDesc"] + ["publicationStmt"] == ["fileDesc", "publicationStmt"];
  }

  lemma SourceDescInHeader(r: EntryRecord, env: HeaderEnv)
    ensures Select(Header(r, env).root, ["teiHeader", "fileDesc", "sourceDesc"]) == Some(SourceDesc(r))
  {
    TeiHeaderPath(r, env, ["fileDesc", "sourceDesc"]);
    TeiHeaderSection(r, env, 0, "fileDesc", ["sourceDesc"]);
    FileDescSection(r, 2, "sourceDesc");
    assert ["teiHeader"] + ["fileDesc", "sourceDesc"] == ["teiHeader", "fileDesc", "sourceDesc"];
    assert ["fileDesc"] + ["sourceDesc"] == ["fileDesc", "sourceDesc"];
  }

  /** The encoding description is the same fixed element for every record and every date. */
  lemma EncodingDescInHeader(r: EntryRecord, env: HeaderEnv)
    ensures Select(Header(r, env).root, ["teiHeader", "encodingDesc"]) == Some(EncodingDesc)
  {
    TeiHeaderPath(r, env, ["encodingDesc"]);
    TeiHeaderSection(r, env, 1, "encodingDesc", []);
    assert ["teiHeader"] + ["encodingDesc"] == ["teiHeader", "encodingDesc"];
    assert ["encodingDesc"] + [] == ["encodingDesc"];
  }

  lemma ProfileDescInHeader(r: EntryRecord, env: HeaderEnv)
    ensures Select(Header(r, env).root, ["teiHeader", "profileDesc"]) == Some(ProfileDesc(r, env))
  {
    TeiHeaderPath(r, env, ["profileDesc"]);
    TeiHeaderSection(r, env, 2, "profileDesc", []);
    assert ["teiHeader"] + ["profileDesc"] == ["teiHeader", "profileDesc"];
    assert ["profileDesc"] + [] == ["profileDesc"];
  }

  /** The revision description records one change: today, by #DC, the initial conversion. */
  lemma RevisionInHeader(r: EntryRecord, env: HeaderEnv)
    ensures Select(Header(r, env).root, ["teiHeader", "revisionDesc", "change"])
         == Some(TextElement("change", [Attr("when", env.today), Attr("who", "#DC")], "Initial conversion from HTML to TEI XML."))
  {
    TeiHeaderPath(r, env, ["revisionDesc", "change"]);
    TeiHeaderSection(r, env, 3, "revisionDesc", ["change"]);
    assert ["teiHeader"] + ["revisionDesc", "change"] == ["teiHeader", "revisionDesc", "change"];
    assert ["change"] == ["change"] + [];
    SelectVia(RevisionDesc(env), 0, "change", []);
  }

  // ---------------------------------------------------------------------------
  // titleStmt
  // ---------------------------------------------------------------------------

  /** The full title of the titleStmt. */
  lemma FullTitleOf(r: EntryRecord)
    ensures Select(TitleStmt(r), ["title"]) == Some(FullTitle(r))
  {
    assert ["title"] == ["title"] + [];
    SelectVia(TitleStmt(r), 0, "title", []);
  }

  /**
   * The full title: with no title collected it holds only the alt title; otherwise it
   * holds more; the alt title, the friendly title or empty, is always last.
   */
  lemma FullTitleShape(r: EntryRecord)
    ensures var t := Select(TitleStmt(r), ["title"]);
            t.Some? && t.value.Element? && t.value.attrs == [Attr("type", "full")]
            && |t.value.children| >= 1
            && t.value.children[|t.value.children| - 1] == TitleElement("alt", r.friendlyTitle.GetOr(""))
            && (|r.title| == 0 <==> |t.value.children| == 1)
  {
    FullTitleOf(r);
  }

  /** A last title without a line break is the main title, as it is. */
  lemma SingleLineTitle(r: EntryRecord)
    requires |r.title| > 0 && !Contains(r.title[|r.title| - 1], "\n")
    ensures Select(TitleStmt(r), ["title"]).Some?
    ensures Select(TitleStmt(r), ["title"]).value.children
         == [TitleElement("main", r.title[|r.title| - 1]), TitleElement("alt", r.friendlyTitle.GetOr(""))]
  {
    FullTitleOf(r);
  }

  /**
   * A last title with line breaks: its first line is the main title and every further
   * line a sub title, in order, followed by the alt title.
   */
  lemma MultiLineTitle(r: EntryRecord)
    requires |r.title| > 0 && Contains(r.title[|r.title| - 1], "\n")
    ensures var lines := TitleLines(r.title[|r.title| - 1]);
            var t := Select(TitleStmt(r), ["title"]);
            t.Some? && t.value.Element? && |t.value.children| == |lines| + 1
            && t.value.children[0] == TitleElement("main", lines[0])
            && forall k :: 1 <= k < |lines| ==> t.value.children[k] == TitleElement("sub", lines[k])
  {
    FullTitleOf(r);
    MainTitlesOfLines(r.title);
  }

  /** The main titles of a list whose last title has line breaks: one per line, the first the main one. */
  lemma MainTitlesOfLines(titles: seq<string>)
    requires |titles| > 0 && Contains(titles[|titles| - 1], "\n")
    ensures var lines := TitleLines(titles[|titles| - 1]);
            var m := MainTitles(titles);
            |m| == |lines| && m[0] == TitleElement("main", lines[0])
            && forall k :: 1 <= k < |lines| ==> m[k] == TitleElement("sub", lines[k])
  {
  }

  lemma NoLineBreak(s: string)
    requires forall k :: 0 <= k < |s| ==> s[k] != '\n'
    ensures !Contains(s, "\n")
  {
    forall i: nat | i <= |s|
      ensures !OccursAt(s, i, "\n")
    {
      if i < |s| {
        assert s[i..i + 1][0] == s[i];
      }
    }
  }

  /** "Line1\nLine2" splits into its two lines. */
  lemma TwoLineExampleLines()
    ensures TitleLines("Line1\nLine2") == ["Line1", "Line2"]
  {
    assert "Line1\nLine2" == "Line1" + "\n" + "Line2";
    NoLineBreak("Line1");
    NoLineBreak("Line2");
    TwoLineTitle("Line1", "Line2");
  }

  /** A two-line title gives its first line as main title and its second as sub title, then the alt title. */
  lemma TwoLineTitleOf(r: EntryRecord, a: string, b: string)
    requires r.title == [a + "\n" + b]
    requires b != "" && !Contains(a, "\n") && !Contains(b, "\n")
    ensures Select(TitleStmt(r), ["title"]).Some?
    ensures Select(TitleStmt(r), ["title"]).value.children
         == [TitleElement("main", a), TitleElement("sub", b), TitleElement("alt", r.friendlyTitle.GetOr(""))]
  {
    var t := a + "\n" + b;
    assert t[|a|..|a| + 1] == "\n";
    assert OccursAt(t, |a|, "\n");
    TwoLineTitle(a, b);
    var lines := TitleLines(t);
    assert lines[1..] == [b];
    assert SubTitles(lines[1..]) == [TitleElement("sub", b)];
    FullTitleOf(r);
  }

  /**
   * Corrected title lines: a title made of a line break only yields an empty main
   * title, where the code as written throws.
   */
  lemma NewlineTitleCorrected(r: EntryRecord)
    requires r.title == ["\n"]
    ensures Select(TitleStmt(r), ["title"]).Some?
    ensures Select(TitleStmt(r), ["title"]).value.children
         == [TitleElement("main", ""), TitleElement("alt", r.friendlyTitle.GetOr(""))]
  {
    var t := "\n";
    assert OccursAt(t, 0, "\n");
    assert IndexOf(t, "\n") == Some(0);
    assert t[1..] == "";
    assert Pieces("", "\n") == [""];
    assert Pieces(t, "\n") == ["", ""];
    assert DropTrailingEmpty(["", ""]) == DropTrailingEmpty([""]) == [];
    assert TitleLines(t) == [""];
    FullTitleOf(r);
  }

  /** The author element holds the creator without its life span, and is empty when no creator is known. */
  lemma AuthorOf(r: EntryRecord)
    ensures var a := Select(TitleStmt(r), ["author"]);
            a.Some? && a.value.Element?
            && (r.creator.None? ==> a.value.children == [])
            && (r.creator.Some? ==> a.value.children == [Text(AuthorName(r.creator.value))])
  {
    assert ["author"] == ["author"] + [];
    SelectVia(TitleStmt(r), 1, "author", []);
  }

  /** A creator with a life span appears in the header without it. */
  lemma AuthorExampleOf(r: EntryRecord)
    requires r.creator == Some("Doe, Jane, 1800-1850")
    ensures Select(TitleStmt(r), ["author"]) == Some(TextElement("author", [], "Doe, Jane"))
  {
    AuthorOf(r);
    AuthorExample();
  }

  // ---------------------------------------------------------------------------
  // publicationStmt and sourceDesc
  // ---------------------------------------------------------------------------

  /** Publisher and date are always present, holding the value when it is known and nothing otherwise. */
  lemma PublisherAndDate(r: EntryRecord)
    ensures var p := Select(PublicationStmt(r), ["publisher"]);
            p.Some? && p.value.Element?
            && p.value.children == (if r.publisher.Some? then [Text(r.publisher.value)] else [])
    ensures var d := Select(PublicationStmt(r), ["date"]);
            d.Some? && d.value.Element?
            && d.value.children == (if r.createdW3CDTF.Some? then [Text(r.createdW3CDTF.value)] else [])
  {
    assert ["publisher"] == ["publisher"] + [];
    SelectVia(PublicationStmt(r), 0, "publisher", []);
    assert ["date"] == ["date"] + [];
    SelectVia(PublicationStmt(r), 1, "date", []);
  }

  /** The licence holds one paragraph per rights statement, in the order collected. */
  lemma LicenceParagraphs(r: EntryRecord)
    ensures var l := Select(PublicationStmt(r), ["availability", "licence"]);
            l.Some? && l.value.Element? && |l.value.children| == |r.rights|
            && forall k :: 0 <= k < |r.rights| ==> l.value.children[k] == TextElement("p", [], r.rights[k])
  {
    assert ["availability", "licence"] == ["availability"] + ["licence"];
    SelectVia(PublicationStmt(r), 2, "availability", ["licence"]);
    assert ["licence"] == ["licence"] + [];
    SelectVia(Availability(r), 0, "licence", []);
  }

  /** The idno element holds the entry number, readable back as that number, once an id was seen. */
  lemma IdnoRoundTrip(r: EntryRecord)
    ensures var i := Select(PublicationStmt(r), ["idno"]);
            i.Some? && i.value.Element?
            && (r.id.None? ==> i.value.children == [])
            && (r.id.Some? ==> |i.value.children| == 1 && i.value.children[0].Text?
                               && AllDigits(i.value.children[0].data)
                               && DigitsValue(i.value.children[0].data) == r.idN)
  {
    assert ["idno"] == ["idno"] + [];
    SelectVia(PublicationStmt(r), 4, "idno", []);
    ParseToString(r.idN);
  }

  /**
   * The source description: the conversion note first; a "Creator: " paragraph exactly
   * when a creator is known; the description as the last paragraph exactly when one is known.
   */
  lemma SourceParagraphsOf(r: EntryRecord)
    ensures var ps := SourceDesc(r).children;
            |ps| == 1 + (if r.creator.Some? then 1 else 0) + (if r.description.Some? then 1 else 0)
            && ps[0] == TextElement("p", [], SourceNote)
            && (r.creator.Some? ==> ps[1] == TextElement("p", [], "Creator: " + r.creator.value))
            && (r.description.Some? ==> ps[|ps| - 1] == TextElement("p", [], r.description.value))
  {
  }

  // ---------------------------------------------------------------------------
  // profileDesc
  // ---------------------------------------------------------------------------

  /** The creation date is always there, empty when the record has no creation date. */
  lemma CreationDateOf(r: EntryRecord, env: HeaderEnv)
    ensures Select(ProfileDesc(r, env), ["creation", "date"]) == Some(TextElement("date", [], r.createdW3CDTF.GetOr("")))
  {
    var p := ProfileDesc(r, env);
    assert ["creation", "date"] == ["creation"] + ["date"];
    SelectVia(p, 0, "creation", ["date"]);
    assert ["date"] == ["date"] + [];
    SelectVia(p.children[0], 0, "date", []);
  }

  /**
   * The language usage is present exactly when a language code is known; it names the
   * code and its display name followed by a full stop.
   */
  lemma LangUsageOf(r: EntryRecord, env: HeaderEnv)
    ensures Select(ProfileDesc(r, env), ["langUsage"]).Some? <==> r.languageCode.Some?
    ensures r.languageCode.Some? ==>
              Select(ProfileDesc(r, env), ["langUsage", "language"])
              == Some(TextElement("language", [Attr("ident", r.languageCode.value)],
                                  env.displayLanguage(r.languageCode.value) + "."))
  {
    var p := ProfileDesc(r, env);
    if r.languageCode.Some? {
      assert ["langUsage"] == ["langUsage"] + [];
      SelectVia(p, 1, "langUsage", []);
      assert ["langUsage", "language"] == ["langUsage"] + ["language"];
      SelectVia(p, 1, "langUsage", ["language"]);
      assert ["language"] == ["language"] + [];
      SelectVia(p.children[1], 0, "language", []);
    } else {
      assert FirstNamed(p.children, "langUsage") == None;
    }
  }

  /** The text classification of the profile description. */
  lemma TextClassOf(r: EntryRecord, env: HeaderEnv)
    ensures Select(ProfileDesc(r, env), ["textClass"]) == Some(TextClass(r))
  {
    assert ["textClass"] == ["textClass"] + [];
    SelectVia(ProfileDesc(r, env), if r.languageCode.Some? then 2 else 1, "textClass", []);
  }

  /**
   * The keywords use the LCSH scheme and hold one term per subject heading, in order;
   * with no heading they hold a single empty term.
   */
  lemma KeywordsOf(r: EntryRecord)
    ensures var kw := Select(TextClass(r), ["keywords"]);
            kw.Some? && kw.value.Element? && kw.value.attrs == [Attr("scheme", "#lcsh")]
            && (|r.subjectHeadingsLCC| == 0 ==> kw.value.children == [Element("term", [], [])])
            && (|r.subjectHeadingsLCC| > 0 ==>
                  |kw.value.children| == |r.subjectHeadingsLCC|
                  && forall k :: 0 <= k < |r.subjectHeadingsLCC| ==>
                       kw.value.children[k] == TextElement("term", [], r.subjectHeadingsLCC[k]))
  {
    assert ["keywords"] == ["keywords"] + [];
    SelectVia(TextClass(r), 0, "keywords", []);
  }

  /**
   * After the keywords, the text classification holds a class code in the Library of
   * Congress scheme exactly when a classification is known and one in the Project
   * Gutenberg scheme exactly when a category is known, in that order.
   */
  lemma ClassCodesOf(r: EntryRecord)
    ensures var cs := TextClass(r).children;
            |cs| == 1 + (if r.classificationLCC.Some? then 1 else 0) + (if r.projGCategory.Some? then 1 else 0)
            && (r.classificationLCC.Some? ==>
                  cs[1] == TextElement("classCode", [Attr("scheme", "#lc")], r.classificationLCC.value))
            && (r.projGCategory.Some? ==>
                  cs[|cs| - 1] == TextElement("classCode", [Attr("scheme", "#pg")], r.projGCategory.value))
  {
  }
}
