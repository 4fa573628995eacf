/**
 * TEIDoc: the metadata record of one catalog entry and the TEI P5 header built from it
 * (chapter 2, "The TEI Header", of the TEI P5 Guidelines).
 *
 * The record's fields are public and filled in place by the catalog parser; the
 * header is a deterministic element tree. `Header` states that tree as a function of
 * the record; `TEIDoc.GenTEIXMLDom` builds it child by child and is proved to produce
 * exactly `Header`; the lemmas navigate the tree by element names and say what each
 * part holds.
 */
module TeiDoc {
  import opened Wrappers
  import opened Strings
  import opened XmlTree

  /** The record's fields; `None` stands for a Java `null` string. */
  datatype EntryRecord = EntryRecord(
    id: Option<string>,
    idN: nat,
    publisher: Option<string>,
    title: seq<string>,
    creator: Option<string>,
    friendlyTitle: Option<string>,
    languageISO: Option<string>,
    languageCode: Option<string>,
    rights: seq<string>,
    subject: seq<string>,
    createdW3CDTF: Option<string>,
    subjectHeadingsLCC: seq<string>,
    classificationLCC: Option<string>,
    projGCategory: Option<string>,
    description: Option<string>,
    contributors: seq<string>,
    toc: Option<string>)

  /** A freshly constructed record: no strings set, every list empty, idN 0. */
  const EmptyRecord := EntryRecord(None, 0, None, [], None, None, None, None, [], [], None, [], None, None, None, [], None)

  /**
   * What the header needs from outside the record: the display name of a language
   * code (java.util.Locale) and today's date as yyyy-MM-dd.
   */
  datatype HeaderEnv = HeaderEnv(displayLanguage: string -> string, today: string)

  datatype ProcessingInstruction = ProcessingInstruction(target: string, data: string)

  /** A DOM document: the processing instructions before the root, and the root. */
  datatype TeiDocument = TeiDocument(prolog: seq<ProcessingInstruction>, root: Node)

  // ---------------------------------------------------------------------------
  // The author pattern  (?<name>[\w,\s]+)(?<year>,\s+\d\d\d\d\s?-+\s?\d\d\d\d)
  // ---------------------------------------------------------------------------

  /** `\w` without UNICODE_CHARACTER_CLASS. */
  predicate IsWordChar(c: char) {
    'a' <= c <= 'z' || 'A' <= c <= 'Z' || '0' <= c <= '9' || c == '_'
  }

  /** The class `[\w,\s]` of the name group. */
  predicate IsNameChar(c: char) {
    IsWordChar(c) || c == ',' || IsSpace(c)
  }

  /** End of the run of name characters starting at `p`. */
  function NameRunEnd(s: string, p: nat): (e: nat)
    requires p <= |s|
    ensures p <= e <= |s|
    decreases |s| - p
  {
    if p < |s| && IsNameChar(s[p]) then NameRunEnd(s, p + 1) else p
  }

  /** End of the run of '-' characters starting at `p`. */
  function DashRunEnd(s: string, p: nat): (e: nat)
    requires p <= |s|
    ensures p <= e <= |s|
    decreases |s| - p
  {
    if p < |s| && s[p] == '-' then DashRunEnd(s, p + 1) else p
  }

  /** The name run is maximal: name characters up to its end, and none at its end. */
  lemma {:induction false} NameRunEndMaximal(s: string, p: nat)
    requires p <= |s|
    ensures forall k :: p <= k < NameRunEnd(s, p) ==> IsNameChar(s[k])
    ensures NameRunEnd(s, p) < |s| ==> !IsNameChar(s[NameRunEnd(s, p)])
    decreases |s| - p
  {
    if p < |s| && IsNameChar(s[p]) {
      NameRunEndMaximal(s, p + 1);
    }
  }

  /** `\s?`: one optional space character at `p`. */
  function OptSpace(s: string, p: nat): nat
    requires p <= |s|
  {
    if p < |s| && IsSpace(s[p]) then p + 1 else p
  }

  predicate FourDigitsAt(s: string, p: nat) {
    p + 4 <= |s| && IsDigit(s[p]) && IsDigit(s[p + 1]) && IsDigit(s[p + 2]) && IsDigit(s[p + 3])
  }

  /**
   * The year group `,\s+\d\d\d\d\s?-+\s?\d\d\d\d` matches at `k`. Each quantifier in it
   * is followed by a character it cannot consume, so the match is unique when it exists.
   */
  predicate YearAt(s: string, k: nat) {
    k < |s| && s[k] == ',' &&
    var b := SpaceRunEnd(s, k + 1);
    b > k + 1 && FourDigitsAt(s, b) &&
    var c := OptSpace(s, b + 4);
    var d := DashRunEnd(s, c);
    d > c && FourDigitsAt(s, OptSpace(s, d))
  }

  /** The greedy name group from `i`: the largest end in (i, k] at which the year group matches. */
  function GreedyNameEnd(s: string, i: nat, k: nat): (r: Option<nat>)
    requires i <= k <= |s|
    ensures match r
            case Some(e) => i < e <= k && YearAt(s, e) && forall m :: e < m <= k ==> !YearAt(s, m)
            case None => forall m :: i < m <= k ==> !YearAt(s, m)
    decreases k - i
  {
    if k <= i then None
    else if YearAt(s, k) then Some(k)
    else
      var r := GreedyNameEnd(s, i, k - 1);
      assert !YearAt(s, k);
      r
  }

  /** The whole pattern matches `s[a..]` with the name group `s[a..e]`. */
  predicate NameYearMatch(s: string, a: nat, e: nat) {
    a < e <= |s| && (forall k :: a <= k < e ==> IsNameChar(s[k])) && YearAt(s, e)
  }

  /** A name group starting at `p` ends within the run of name characters from `p`. */
  lemma NameGroupInRun(s: string, p: nat)
    requires p <= |s|
    ensures forall e: nat :: NameYearMatch(s, p, e) ==> e <= NameRunEnd(s, p)
  {
    NameRunEndMaximal(s, p);
    forall e: nat | NameYearMatch(s, p, e)
      ensures e <= NameRunEnd(s, p)
    {
    }
  }

  /**
   * Matcher.find(i): the leftmost start at or after `i` at which the pattern matches,
   * with the longest name group the greedy `[\w,\s]+` can give there; none when the
   * pattern matches nowhere from `i` on.
   */
  function NameMatch(s: string, i: nat): (r: Option<(nat, nat)>)
    requires i <= |s|
    ensures r.Some? ==> i <= r.value.0 && NameYearMatch(s, r.value.0, r.value.1)
    ensures r.Some? ==> forall a: nat, e: nat :: i <= a && NameYearMatch(s, a, e) ==>
                          r.value.0 <= a && (a == r.value.0 ==> e <= r.value.1)
    ensures r.None? <==> forall a: nat, e: nat :: i <= a ==> !NameYearMatch(s, a, e)
    decreases |s| - i
  {
    if i == |s| then None
    else
      NameRunEndMaximal(s, i);
      NameGroupInRun(s, i);
      match GreedyNameEnd(s, i, NameRunEnd(s, i))
      case Some(e) => assert NameYearMatch(s, i, e); Some((i, e))
      case None => NameMatch(s, i + 1)
  }

  /** The text of the `author` element for a known creator. */
  function AuthorName(creator: string): string {
    match NameMatch(creator, 0)
    case None => creator
    case Some((a, e)) => creator[a..e]
  }

  /** ", YYYY-YYYY" at `L` is a match of the year group. */
  lemma LifeSpanIsYear(s: string, L: nat)
    requires L + 11 <= |s| && s[L] == ',' && s[L + 1] == ' ' && s[L + 6] == '-'
    requires FourDigitsAt(s, L + 2) && FourDigitsAt(s, L + 7)
    ensures YearAt(s, L)
  {
    assert SpaceRunEnd(s, L + 2) == L + 2;
    assert SpaceRunEnd(s, L + 1) == L + 2;
    assert OptSpace(s, L + 6) == L + 6;
    assert DashRunEnd(s, L + 7) == L + 7;
    assert DashRunEnd(s, L + 6) == L + 7;
    assert OptSpace(s, L + 7) == L + 7;
  }

  /** A match from the start whose year group begins at the last comma is the one find(0) gives. */
  lemma LastCommaMatch(s: string, L: nat)
    requires NameYearMatch(s, 0, L)
    requires forall m :: L < m < |s| ==> s[m] != ','
    ensures NameMatch(s, 0) == Some((0, L))
  {
    var r := NameMatch(s, 0);
    assert r.Some?;
    assert r.value.0 == 0;
    assert YearAt(s, r.value.1);
  }

  /** A creator of the form "name, YYYY-YYYY" is reduced to its name. */
  lemma AuthorStripsLifeSpan(n: string, y1: string, y2: string)
    requires |n| > 0 && forall k :: 0 <= k < |n| ==> IsNameChar(n[k])
    requires |y1| == 4 && AllDigits(y1) && |y2| == 4 && AllDigits(y2)
    ensures AuthorName(n + ", " + y1 + "-" + y2) == n
  {
    var s := n + ", " + y1 + "-" + y2;
    var L := |n|;
    assert s[L] == ',' && s[L + 1] == ' ' && s[L + 6] == '-';
    assert forall k :: L + 2 <= k < L + 6 ==> s[k] == y1[k - L - 2];
    assert forall k :: L + 7 <= k < L + 11 ==> s[k] == y2[k - L - 7];
    assert forall k :: 0 <= k < L ==> s[k] == n[k];
    LifeSpanIsYear(s, L);
    assert forall m :: L < m < |s| ==> s[m] != ',';
    LastCommaMatch(s, L);
    assert s[0..L] == n;
  }

  /** A creator with a life span: the life span is dropped. */
  lemma AuthorExample()
    ensures AuthorName("Doe, Jane, 1800-1850") == "Doe, Jane"
  {
    var n := "Doe, Jane";
    assert "Doe, Jane, 1800-1850" == n + ", " + "1800" + "-" + "1850";
    AuthorStripsLifeSpan(n, "1800", "1850");
  }

  /** A creator in which the pattern matches nowhere is used verbatim. */
  lemma AuthorVerbatim(creator: string)
    requires forall a: nat, e: nat :: !NameYearMatch(creator, a, e)
    ensures AuthorName(creator) == creator
  {
  }

  /** A year group with no name before it is no match: the creator is kept verbatim. */
  lemma AuthorYearOnly()
    ensures AuthorName(", 1800-1850") == ", 1800-1850"
  {
    var s := ", 1800-1850";
    assert forall m :: 0 < m < |s| ==> s[m] != ',';
    AuthorVerbatim(s);
  }

  // ---------------------------------------------------------------------------
  // Title lines
  // ---------------------------------------------------------------------------

  /**
   * As written: `title.split("\n")`. A title made of line breaks only splits into no
   * pieces at all, and the code then reads piece 0.
   */
  function TitleLinesAsWritten(t: string): seq<string> {
    Split(t, "\n")
  }

  /** As written, the children of the full title; `None` where Java throws ArrayIndexOutOfBoundsException. */
  function FullTitleChildrenAsWritten(titles: seq<string>, friendly: Option<string>): Option<seq<Node>> {
    var alt := [TitleElement("alt", friendly.GetOr(""))];
    if |titles| == 0 then Some(alt)
    else
      var t := titles[|titles| - 1];
      if !Contains(t, "\n") then Some([TitleElement("main", t)] + alt)
      else
        var lines := TitleLinesAsWritten(t);
        if |lines| == 0 then None
        else Some([TitleElement("main", lines[0])] + SubTitles(lines[1..]) + alt)
  }

  /** A title consisting of one line break makes the header assembly throw. */
  lemma NewlineTitleThrows(friendly: Option<string>)
    ensures FullTitleChildrenAsWritten(["\n"], friendly).None?
  {
    var t := "\n";
    assert OccursAt(t, 0, "\n");
    var ps := Pieces(t, "\n");
    assert IndexOf(t, "\n") == Some(0);
    assert t[1..] == "";
    assert Pieces("", "\n") == [""];
    assert ps == ["", ""];
    assert DropTrailingEmpty(["", ""]) == DropTrailingEmpty([""]) == [];
  }

  /** Corrected: the lines of a multi-line title, with one empty line when split finds none. */
  function TitleLines(t: string): (lines: seq<string>)
    ensures |lines| >= 1
  {
    var ls := Split(t, "\n");
    if |ls| == 0 then [""] else ls
  }

  function Newlines(n: nat): (r: string)
    ensures |r| == n && forall k :: 0 <= k < n ==> r[k] == '\n'
  {
    if n == 0 then "" else Newlines(n - 1) + "\n"
  }

  lemma {:induction false} JoinDropTrailing(ps: seq<string>, sep: string)
    requires |ps| >= 1
    ensures var d := DropTrailingEmpty(ps);
            |d| <= |ps| && (|d| >= 1 ==> Join(ps, sep) == Join(d, sep) + Repeat(sep, |ps| - |d|))
    ensures var d := DropTrailingEmpty(ps);
            |d| == 0 ==> Join(ps, sep) == Repeat(sep, |ps| - 1)
    decreases |ps|
  {
    var d := DropTrailingEmpty(ps);
    DropTrailingEmptyShape(ps);
    if ps[|ps| - 1] != "" {
      assert d == ps;
    } else if |ps| == 1 {
      assert d == [];
    } else {
      var init := ps[..|ps| - 1];
      JoinDropTrailing(init, sep);
      assert DropTrailingEmpty(ps) == DropTrailingEmpty(init);
      JoinSnoc(init, "", sep);
      assert init + [""] == ps;
      RepeatSnoc(sep, |ps| - 1 - |d|);
      if |d| == 0 {
        RepeatSnoc(sep, |init| - 1);
      }
    }
  }

  /** `n` copies of `s`. */
  function Repeat(s: string, n: nat): string {
    if n == 0 then "" else Repeat(s, n - 1) + s
  }

  lemma RepeatSnoc(s: string, n: nat)
    ensures Repeat(s, n + 1) == Repeat(s, n) + s
  {
  }

  lemma {:induction false} JoinSnoc(ps: seq<string>, x: string, sep: string)
    requires |ps| >= 1
    ensures Join(ps + [x], sep) == Join(ps, sep) + sep + x
    decreases |ps|
  {
    if |ps| == 1 {
      assert (ps + [x])[1..] == [x];
    } else {
      assert (ps + [x])[1..] == ps[1..] + [x];
      JoinSnoc(ps[1..], x, sep);
    }
  }

  /**
   * The title lines joined back with line breaks give the title without its trailing
   * line breaks: nothing but trailing line breaks is lost in the split.
   */
  lemma TitleLinesRejoin(t: string)
    requires Contains(t, "\n")
    ensures exists n: nat :: t == Join(TitleLines(t), "\n") + Newlines(n)
  {
    var ps := Pieces(t, "\n");
    JoinDropTrailing(ps, "\n");
    var d := DropTrailingEmpty(ps);
    var m := if |d| >= 1 then |ps| - |d| else |ps| - 1;
    NewlinesRepeat(m);
    if |d| == 0 {
      assert TitleLines(t) == [""];
      assert t == Join([""], "\n") + Newlines(m);
    } else {
      assert t == Join(TitleLines(t), "\n") + Newlines(m);
    }
  }

  lemma {:induction false} NewlinesRepeat(n: nat)
    ensures Newlines(n) == Repeat("\n", n)
  {
    if n > 0 { NewlinesRepeat(n - 1); }
  }

  /** A two-line title splits into exactly its two lines. */
  lemma TwoLineTitle(a: string, b: string)
    requires b != "" && !Contains(a, "\n") && !Contains(b, "\n")
    ensures TitleLines(a + "\n" + b) == [a, b]
  {
    var t := a + "\n" + b;
    assert t[..|a|] == a && t[|a| + 1..] == b;
    assert OccursAt(t, |a|, "\n");
    forall k: nat | k < |a|
      ensures !OccursAt(t, k, "\n")
    {
      assert !OccursAt(a, k, "\n");
      assert t[k] == a[k];
    }
    assert IndexOf(t, "\n") == Some(|a|);
    assert Pieces(b, "\n") == [b];
    assert Pieces(t, "\n") == [a, b];
  }

  // ---------------------------------------------------------------------------
  // The header tree
  // ---------------------------------------------------------------------------

  function TitleElement(kind: string, data: string): Node {
    TextElement("title", [Attr("type", kind)], data)
  }

  function SubTitles(lines: seq<string>): seq<Node> {
    seq(|lines|, k requires 0 <= k < |lines| => TitleElement("sub", lines[k]))
  }

  /** The title elements inside the full title, before the alt title. */
  function MainTitles(titles: seq<string>): seq<Node> {
    if |titles| == 0 then []
    else
      var t := titles[|titles| - 1];
      if Contains(t, "\n") then
        var lines := TitleLines(t);
        [TitleElement("main", lines[0])] + SubTitles(lines[1..])
      else [TitleElement("main", t)]
  }

  function FullTitle(r: EntryRecord): Node {
    Element("title", [Attr("type", "full")], MainTitles(r.title) + [TitleElement("alt", r.friendlyTitle.GetOr(""))])
  }

  function Author(r: EntryRecord): Node {
    Element("author", [], if r.creator.Some? then [Text(AuthorName(r.creator.value))] else [])
  }

  function TitleStmt(r: EntryRecord): Node {
    Element("titleStmt", [], [FullTitle(r), Author(r)])
  }

  /** An element holding the string when it is set, and nothing otherwise. */
  function OptionalText(name: string, o: Option<string>): Node {
    Element(name, [], if o.Some? then [Text(o.value)] else [])
  }

  lemma SubTitlesSnoc(lines: seq<string>, x: string)
    ensures SubTitles(lines + [x]) == SubTitles(lines) + [TitleElement("sub", x)]
  {
  }

  function Paragraph(data: string): Node {
    TextElement("p", [], data)
  }

  function Paragraphs(ps: seq<string>): seq<Node> {
    seq(|ps|, k requires 0 <= k < |ps| => Paragraph(ps[k]))
  }

  function Availability(r: EntryRecord): Node {
    Element("availability", [], [Element("licence", [], Paragraphs(r.rights))])
  }

  const Distributor := Element("distributor", [], [
    TextElement("name", [Attr("xml:id", "DC")], "Damir Cavar"),
    TextElement("name", [Attr("xml:id", "LTL")], "Language Technology Lab"),
    TextElement("name", [Attr("xml:id", "ILIT")], "Institute for Language Information and Technology"),
    TextElement("name", [Attr("xml:id", "EMU")], "Eastern Michigan University"),
    Element("address", [], [
      TextElement("addrLine", [], "2000 E. Huron River Dr., Suite 104"),
      TextElement("addrLine", [], "Ypsilanti, MI 48197"),
      TextElement("addrLine", [], "USA")])])

  function Idno(r: EntryRecord): Node {
    Element("idno", [], if r.id.Some? then [Text(NatToString(r.idN))] else [])
  }

  function PublicationStmt(r: EntryRecord): Node {
    Element("publicationStmt", [], [
      OptionalText("publisher", r.publisher),
      OptionalText("date", r.createdW3CDTF),
      Availability(r),
      Distributor,
      Idno(r)])
  }

  const SourceNote := "This text was automatically converted from the corresponding HTML formated text found in the Project Gutenberg (http://www.gutenberg.org/) collection."

  function SourceParagraphs(r: EntryRecord): seq<Node> {
    [Paragraph(SourceNote)]
    + (if r.creator.Some? then [Paragraph("Creator: " + r.creator.value)] else [])
    + (if r.description.Some? then [Paragraph(r.description.value)] else [])
  }

  function SourceDesc(r: EntryRecord): Node {
    Element("sourceDesc", [], SourceParagraphs(r))
  }

  function FileDesc(r: EntryRecord): Node {
    Element("fileDesc", [], [TitleStmt(r), PublicationStmt(r), SourceDesc(r)])
  }

  function Taxonomy(id: string, bibl: string): Node {
    Element("taxonomy", [Attr("xml:id", id)], [TextElement("bibl", [], bibl)])
  }

  const EncodingDesc := Element("encodingDesc", [], [
    Element("appInfo", [], [
      Element("application", [Attr("ident", "gutenberg2tei"), Attr("version", "1.0")], [
        TextElement("desc", [], "Conversion tool using the RDF file catalog and meta-information and conversion of HTML to TEI XML.")])]),
    Element("projectDesc", [], [
      Paragraph("The conversion of the Project Gutenberg texts to the TEI XML format started as an independent project at ILIT, EMU.")]),
    Element("samplingDecl", [], [Paragraph("")]),
    Element("classDecl", [], [
      Taxonomy("lcsh", "Library of Congress Subject Headings"),
      Taxonomy("lc", "Library of Congress Classification"),
      Taxonomy("pg", "Project Gutenberg Category")])])

  function Term(data: string): Node {
    TextElement("term", [], data)
  }

  /** One term per subject heading; a single empty term when there is none. */
  function Terms(headings: seq<string>): seq<Node> {
    if |headings| > 0 then seq(|headings|, k requires 0 <= k < |headings| => Term(headings[k]))
    else [Element("term", [], [])]
  }

  function ClassCodes(r: EntryRecord): seq<Node> {
    (if r.classificationLCC.Some? then [TextElement("classCode", [Attr("scheme", "#lc")], r.classificationLCC.value)] else [])
    + (if r.projGCategory.Some? then [TextElement("classCode", [Attr("scheme", "#pg")], r.projGCategory.value)] else [])
  }

  function TextClass(r: EntryRecord): Node {
    Element("textClass", [], [Element("keywords", [Attr("scheme", "#lcsh")], Terms(r.subjectHeadingsLCC))] + ClassCodes(r))
  }

  function LangUsage(code: string, env: HeaderEnv): Node {
    Element("langUsage", [], [TextElement("language", [Attr("ident", code)], env.displayLanguage(code) + ".")])
  }

  function ProfileDesc(r: EntryRecord, env: HeaderEnv): Node {
    Element("profileDesc", [],
      [Element("creation", [], [TextElement("date", [], r.createdW3CDTF.GetOr(""))])]
      + (if r.languageCode.Some? then [LangUsage(r.languageCode.value, env)] else [])
      + [TextClass(r)])
  }

  function RevisionDesc(env: HeaderEnv): Node {
    Element("revisionDesc", [], [
      TextElement("change", [Attr("when", env.today), Attr("who", "#DC")], "Initial conversion from HTML to TEI XML.")])
  }

  function TeiHeader(r: EntryRecord, env: HeaderEnv): Node {
    Element("teiHeader", [], [FileDesc(r), EncodingDesc, ProfileDesc(r, env), RevisionDesc(env)])
  }

  const TeiNamespace := "http://www.tei-c.org/ns/1.0"

  const XmlModel := ProcessingInstruction("xml-model",
    "href=\"http://www.tei-c.org/release/xml/tei/custom/schema/relaxng/teilite.rng\" schematypens=\"http://relaxng.org/ns/structure/1.0\"")

  /** The header document for a record: what genTEIXMLDom leaves in `mydom`. */
  function Header(r: EntryRecord, env: HeaderEnv): TeiDocument {
    TeiDocument([XmlModel], Element("TEI", [Attr("xmlns", TeiNamespace)], [TeiHeader(r, env)]))
  }

  // ---------------------------------------------------------------------------
  // The record as an object
  // ---------------------------------------------------------------------------

  class TEIDoc {
    var id: Option<string>
    var idN: nat
    var publisher: Option<string>
    var title: seq<string>
    var creator: Option<string>
    var friendlyTitle: Option<string>
    var languageISO: Option<string>
    var languageCode: Option<string>
    var rights: seq<string>
    var subject: seq<string>
    var createdW3CDTF: Option<string>
    var subjectHeadingsLCC: seq<string>
    var classificationLCC: Option<string>
    var projGCategory: Option<string>
    var description: Option<string>
    var contributors: seq<string>
    var toc: Option<string>
    var mydom: Option<TeiDocument>

    /** The record the fields hold. */
    function Record(): EntryRecord
      reads this
    {
      EntryRecord(id, idN, publisher, title, creator, friendlyTitle, languageISO, languageCode,
        rights, subject, createdW3CDTF, subjectHeadingsLCC, classificationLCC, projGCategory,
        description, contributors, toc)
    }

    constructor ()
      ensures Record() == EmptyRecord && mydom == None
    {
      id, idN, publisher, title, creator, friendlyTitle := None, 0, None, [], None, None;
      languageISO, languageCode, rights, subject, createdW3CDTF := None, None, [], [], None;
      subjectHeadingsLCC, classificationLCC, projGCategory := [], None, None;
      description, contributors, toc, mydom := None, [], None, None;
    }

    /** The title elements inside the full title: main, then one sub title per further line. */
    method BuildMainTitles() returns (mains: seq<Node>)
      ensures mains == MainTitles(title)
    {
      mains := [];
      var numTitles := |title|;
      if numTitles > 0 {
        var tmpStr := title[numTitles - 1];
        if Contains(tmpStr, "\n") {
          var subStrs := TitleLines(tmpStr);
          var subs: seq<Node> := [];
          for i := 1 to |subStrs|
            invariant subs == SubTitles(subStrs[1..i])
          {
            SubTitlesSnoc(subStrs[1..i], subStrs[i]);
            assert subStrs[1..i + 1] == subStrs[1..i] + [subStrs[i]];
            subs := subs + [TitleElement("sub", subStrs[i])];
          }
          assert subStrs[1..|subStrs|] == subStrs[1..];
          mains := [TitleElement("main", subStrs[0])] + subs;
        } else {
          mains := [TitleElement("main", tmpStr)];
        }
      }
    }

    /** The titleStmt section: the full title ending in the alt title, then the author. */
    method BuildTitleStmt() returns (titleStmt: Node)
      ensures titleStmt == TitleStmt(Record())
    {
      var mains := BuildMainTitles();
      var titleChildren := mains + [TitleElement("alt", friendlyTitle.GetOr(""))];
      var authorChildren := if creator.Some? then [Text(AuthorName(creator.value))] else [];
      titleStmt := Element("titleStmt", [], [
        Element("title", [Attr("type", "full")], titleChildren),
        Element("author", [], authorChildren)]);
    }

    /** The publicationStmt section: publisher, date, one licence paragraph per right, distributor, idno. */
    method BuildPublicationStmt() returns (publicationStmt: Node)
      ensures publicationStmt == PublicationStmt(Record())
    {
      var licence: seq<Node> := [];
      for i := 0 to |rights|
        invariant licence == Paragraphs(rights[..i])
      {
        licence := licence + [Paragraph(rights[i])];
      }
      assert rights[..|rights|] == rights;
      publicationStmt := Element("publicationStmt", [], [
        OptionalText("publisher", publisher),
        OptionalText("date", createdW3CDTF),
        Element("availability", [], [Element("licence", [], licence)]),
        Distributor,
        Element("idno", [], if id.Some? then [Text(NatToString(idN))] else [])]);
    }

    /** The sourceDesc section: the conversion note, then the creator and the description when set. */
    method BuildSourceDesc() returns (sourceDesc: Node)
      ensures sourceDesc == SourceDesc(Record())
    {
      var ps: seq<Node> := [Paragraph(SourceNote)];
      if creator.Some? {
        ps := ps + [Paragraph("Creator: " + creator.value)];
      }
      if description.Some? {
        ps := ps + [Paragraph(description.value)];
      }
      sourceDesc := Element("sourceDesc", [], ps);
    }

    /** The profileDesc section: creation date, language, keywords and class codes. */
    method BuildProfileDesc(env: HeaderEnv) returns (profileDesc: Node)
      ensures profileDesc == ProfileDesc(Record(), env)
    {
      var profile: seq<Node> := [Element("creation", [], [TextElement("date", [], createdW3CDTF.GetOr(""))])];
      if languageCode.Some? {
        profile := profile + [LangUsage(languageCode.value, env)];
      }
      var keywords: seq<Node> := [];
      var headings := subjectHeadingsLCC;
      if |headings| > 0 {
        for i := 0 to |headings|
          invariant keywords == seq(i, k requires 0 <= k < i => Term(headings[k]))
        {
          keywords := keywords + [Term(headings[i])];
        }
      } else {
        keywords := [Element("term", [], [])];
      }
      assert keywords == Terms(headings);
      var codes: seq<Node> := [];
      if classificationLCC.Some? {
        codes := codes + [TextElement("classCode", [Attr("scheme", "#lc")], classificationLCC.value)];
      }
      if projGCategory.Some? {
        codes := codes + [TextElement("classCode", [Attr("scheme", "#pg")], projGCategory.value)];
      }
      assert codes == ClassCodes(Record());
      var textClass := [Element("keywords", [Attr("scheme", "#lcsh")], keywords)] + codes;
      profileDesc := Element("profileDesc", [], profile + [Element("textClass", [], textClass)]);
    }

    /** genTEIXMLDom: build the header document from the fields, section after section. */
    method GenTEIXMLDom(env: HeaderEnv)
      modifies this`mydom
      ensures mydom == Some(Header(Record(), env))
    {
      var titleStmt := BuildTitleStmt();
      var publicationStmt := BuildPublicationStmt();
      var sourceDesc := BuildSourceDesc();
      var fileDesc := Element("fileDesc", [], [titleStmt, publicationStmt, sourceDesc]);
      var profileDesc := BuildProfileDesc(env);
      var teiHeader := Element("teiHeader", [], [fileDesc, EncodingDesc, profileDesc, RevisionDesc(env)]);
      mydom := Some(TeiDocument([XmlModel], Element("TEI", [Attr("xmlns", TeiNamespace)], [teiHeader])));
    }
  }
}
