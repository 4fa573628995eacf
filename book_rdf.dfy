/**
 * BookRDF: the per-book RDF descriptor of Project Gutenberg. From its DOM it reads which
 * file holds which edition (HTML, zipped HTML, EPUB with and without images) with its
 * MIME type and character set, and the first language, publisher, rights, title and
 * issue date; after a conversion it records the new TEI XML file in the descriptor.
 */
module BookRdf {
  import opened Wrappers
  import opened Strings
  import opened XmlTree

  // ---------------------------------------------------------------------------
  // Format keys
  // ---------------------------------------------------------------------------

  const HTML: nat := 0
  const HTML_ZIP: nat := 1
  const EPUB: nat := 2
  const EPUB_NO_I: nat := 3

  /** The ending of the file address that identifies the edition under `key`. */
  function Suffix(key: nat): string
    requires key < 4
  {
    if key == HTML then "-h.htm"
    else if key == HTML_ZIP then "-h.zip"
    else if key == EPUB then "epub.images"
    else "epub.noimages"
  }

  /** The MIME type the edition under `key` must have. */
  function Mime(key: nat): string
    requires key < 4
  {
    if key == HTML || key == HTML_ZIP then "text/html" else "application/epub+zip"
  }

  /** The file under format `key` matches by its address ending and its MIME type. */
  predicate Rule(key: nat, url: string, mimetype: string) {
    key < 4 && EndsWith(url, Suffix(key)) && mimetype == Mime(key)
  }

  /** The chain of rules of formatURLsFromDoc, tried in order. */
  function Classify(url: string, mimetype: string): Option<nat> {
    if EndsWith(url, "-h.htm") && mimetype == "text/html" then Some(HTML)
    else if EndsWith(url, "-h.zip") && mimetype == "text/html" then Some(HTML_ZIP)
    else if EndsWith(url, "epub.images") && mimetype == "application/epub+zip" then Some(EPUB)
    else if EndsWith(url, "epub.noimages") && mimetype == "application/epub+zip" then Some(EPUB_NO_I)
    else None
  }

  /** No address ends with two different suffixes, so the order of the rules never matters. */
  lemma SuffixesExclusive(url: string)
    ensures EndsWith(url, "-h.htm") ==> !EndsWith(url, "-h.zip")
    ensures EndsWith(url, "epub.images") ==> !EndsWith(url, "epub.noimages")
  {
    if EndsWith(url, "-h.htm") {
      assert url[|url| - 1] == "-h.htm"[5];
    }
    if EndsWith(url, "epub.images") {
      assert url[|url| - 11] == "epub.images"[0];
      assert |url| < 13 || url[|url| - 11] == "epub.noimages"[2] || !EndsWith(url, "epub.noimages");
    }
  }

  /** A file is classified under `key` exactly when the rule for `key` holds. */
  lemma ClassifyIff(url: string, mimetype: string, key: nat)
    ensures Classify(url, mimetype) == Some(key) <==> Rule(key, url, mimetype)
  {
    SuffixesExclusive(url);
  }

  /** A file without an address is never classified. */
  lemma NoAddressNeverClassified(mimetype: string)
    ensures Classify("", mimetype) == None
  {
  }

  // ---------------------------------------------------------------------------
  // Splitting a value at `;\s+`
  // ---------------------------------------------------------------------------

  /** A match of `;\s+` starts at `i`. */
  predicate SepAt(s: string, i: nat) {
    i + 1 < |s| && s[i] == ';' && IsSpace(s[i + 1])
  }

  /** The first match of `;\s+` at or after `from`. */
  function FindSep(s: string, from: nat): (r: Option<nat>)
    requires from <= |s|
    ensures r.Some? ==> from <= r.value && SepAt(s, r.value)
    ensures r.Some? ==> forall k: nat :: from <= k < r.value ==> !SepAt(s, k)
    ensures r.None? ==> forall k: nat :: from <= k ==> !SepAt(s, k)
    decreases |s| - from
  {
    if SepAt(s, from) then Some(from)
    else if from == |s| then None
    else FindSep(s, from + 1)
  }

  /** The pieces between the matches of `;\s+` from `from` on. */
  function SemiPieces(s: string, from: nat): (r: seq<string>)
    requires from <= |s|
    ensures |r| >= 1
    decreases |s| - from
  {
    match FindSep(s, from)
    case None => [s[from..]]
    case Some(k) => [s[from..k]] + SemiPieces(s, SpaceRunEnd(s, k + 1))
  }

  /** `val.split(";\\s+")`: the value itself without a match, else the pieces without the trailing empty ones. */
  function SplitSemicolon(s: string): seq<string> {
    if FindSep(s, 0).None? then [s] else DropTrailingEmpty(SemiPieces(s, 0))
  }

  // ---------------------------------------------------------------------------
  // The MIME type and character set of one file
  // ---------------------------------------------------------------------------

  /** What the scan of a file's values leaves: a type and a character set, or the index error on `parts[1]`. */
  datatype Scan = Scan(mimetype: string, encoding: string) | OutOfBounds

  /** The first value holding "; ": the part before the separator and the next part without "charset=". */
  function SplitValue(val: string): Scan {
    var parts := SplitSemicolon(val);
    if |parts| < 2 then OutOfBounds
    else Scan(parts[0], RemoveAll(parts[1], "charset="))
  }

  /** Which value decides the scan: the first one holding "; ", or else the last one seen. */
  datatype Decision = SplitAt(val: string) | LastSeen(mimetype: string, encoding: string)

  /** The loop over the values from index `t` on, with the type and character set found so far. */
  function Decide(vals: seq<string>, t: nat, mimetype: string, encoding: string): Decision
    requires t <= |vals|
    decreases |vals| - t
  {
    if t == |vals| then LastSeen(mimetype, encoding)
    else if Contains(vals[t], "; ") then SplitAt(vals[t])
    else Decide(vals, t + 1, Trim(vals[t]), encoding)
  }

  /** What the loop leaves, once it has stopped. */
  function Outcome(d: Decision): Scan {
    match d
    case SplitAt(v) => SplitValue(v)
    case LastSeen(m, e) => Scan(m, e)
  }

  /** Without a value holding "; ", the loop leaves the last value trimmed, and no character set. */
  lemma {:induction false} DecideNoSeparator(vals: seq<string>, t: nat, mimetype: string, encoding: string)
    requires t <= |vals|
    requires forall j :: t <= j < |vals| ==> !Contains(vals[j], "; ")
    ensures Decide(vals, t, mimetype, encoding)
            == LastSeen(if t == |vals| then mimetype else Trim(vals[|vals| - 1]), encoding)
    decreases |vals| - t
  {
    if t < |vals| {
      DecideNoSeparator(vals, t + 1, Trim(vals[t]), encoding);
    }
  }

  /** The first value holding "; " decides alone; the values after it are never read. */
  lemma {:induction false} DecideFirstSeparator(vals: seq<string>, t: nat, mimetype: string, encoding: string, j: nat)
    requires t <= j < |vals| && Contains(vals[j], "; ")
    requires forall i :: t <= i < j ==> !Contains(vals[i], "; ")
    ensures Decide(vals, t, mimetype, encoding) == SplitAt(vals[j])
    decreases j - t
  {
    if t < j {
      DecideFirstSeparator(vals, t + 1, Trim(vals[t]), encoding, j);
    }
  }

  /** `a; charset=cs` splits into `a` and `charset=cs` when neither part holds a ';'. */
  lemma SplitTypeAndCharset(a: string, cs: string)
    requires forall k :: 0 <= k < |a| ==> a[k] != ';'
    requires forall k :: 0 <= k < |cs| ==> cs[k] != ';'
    ensures SplitSemicolon(a + "; charset=" + cs) == [a, "charset=" + cs]
  {
    var s := a + "; charset=" + cs;
    var tail := "charset=" + cs;
    assert s[|a|] == ';' && s[|a| + 1] == ' ' && s[|a| + 2] == 'c';
    assert SepAt(s, |a|);
    assert FindSep(s, 0) == Some(|a|);
    assert SpaceRunEnd(s, |a| + 1) == |a| + 2;
    assert forall k :: |a| + 2 <= k < |s| ==> s[k] != ';';
    assert FindSep(s, |a| + 2).None?;
    assert s[..|a|] == a && s[|a| + 2..] == tail;
    assert SemiPieces(s, 0) == [a, tail];
  }

  /** The value `a; charset=cs` gives the type `a` and the character set `cs`. */
  lemma TypeAndCharset(a: string, cs: string)
    requires forall k :: 0 <= k < |a| ==> a[k] != ';'
    requires forall k :: 0 <= k < |cs| ==> cs[k] != ';'
    requires !Contains(cs, "charset=")
    ensures SplitValue(a + "; charset=" + cs) == Scan(a, cs)
  {
    SplitTypeAndCharset(a, cs);
    RemoveAllLeading("charset=", cs);
    RemoveAllShape(cs, "charset=");
  }

  // ---------------------------------------------------------------------------
  // The files of a descriptor
  // ---------------------------------------------------------------------------

  /** `.//rdf:value/text()` below `ns`: the text nodes whose parent is an rdf:value, in document order. */
  function ValueTextsIn(ns: seq<Node>, parentIsValue: bool): seq<string>
    decreases ns
  {
    if |ns| == 0 then []
    else
      (match ns[0]
       case Text(d) => if parentIsValue then [d] else []
       case Element(nm, _, children) => ValueTextsIn(children, nm == "rdf:value"))
      + ValueTextsIn(ns[1..], parentIsValue)
  }

  function ValueTexts(file: Node): seq<string> {
    if file.Element? then ValueTextsIn(file.children, false) else []
  }

  /** The file's rdf:about, or "" without one. */
  function FileURL(file: Node): string {
    if file.Element? then GetAttr(file.attrs, "rdf:about").GetOr("") else ""
  }

  function FileScan(file: Node): Scan {
    Outcome(Decide(ValueTexts(file), 0, "", ""))
  }

  /** What the loop takes from one file: its address and the outcome of its values. */
  datatype FileFact = FileFact(url: string, scan: Scan)

  function FactOf(file: Node): FileFact {
    FileFact(FileURL(file), FileScan(file))
  }

  /** The facts of `files`, one per file, in order. */
  function FactsOf(files: seq<Node>): (fs: seq<FileFact>)
    ensures |fs| == |files|
    ensures forall j :: 0 <= j < |files| ==> fs[j] == FactOf(files[j])
  {
    seq(|files|, j requires 0 <= j < |files| => FactOf(files[j]))
  }

  /** The file is an edition the rules recognise under `key`. */
  predicate Keyed(f: FileFact, key: nat) {
    f.scan.Scan? && Classify(f.url, f.scan.mimetype) == Some(key)
  }

  /** What the map holds for a file: its address, MIME type and character set. */
  datatype FormatEntry = FormatEntry(url: string, mimetype: string, encoding: string)

  function EntryOf(f: FileFact): FormatEntry
    requires f.scan.Scan?
  {
    FormatEntry(f.url, f.scan.mimetype, f.scan.encoding)
  }

  /** The map after the loop over the files, and whether the loop ended in the index error. */
  datatype Formats = Formats(hm: map<nat, FormatEntry>, thrown: bool)

  /** One pass of the loop: the index error, or the entry stored under the file's key when it has one. */
  function FormatsStep(hm: map<nat, FormatEntry>, f: FileFact): Formats {
    match f.scan
    case OutOfBounds => Formats(hm, true)
    case Scan(mt, enc) =>
      match Classify(f.url, mt)
      case None => Formats(hm, false)
      case Some(k) => Formats(hm[k := FormatEntry(f.url, mt, enc)], false)
  }

  /** The loop over the files' facts, stopping at the first index error. */
  function FormatsOf(hm: map<nat, FormatEntry>, facts: seq<FileFact>): Formats {
    if |facts| == 0 then Formats(hm, false)
    else
      var r := FormatsOf(hm, facts[..|facts| - 1]);
      if r.thrown then r else FormatsStep(r.hm, facts[|facts| - 1])
  }

  /** Once the loop has thrown, the files after that one change nothing. */
  lemma {:induction false} FormatsStopped(hm: map<nat, FormatEntry>, facts: seq<FileFact>, j: nat)
    requires j <= |facts| && FormatsOf(hm, facts[..j]).thrown
    ensures FormatsOf(hm, facts) == FormatsOf(hm, facts[..j])
  {
    if j < |facts| {
      var init := facts[..|facts| - 1];
      assert init[..j] == facts[..j];
      FormatsStopped(hm, init, j);
    } else {
      assert facts[..j] == facts;
    }
  }

  /** The loop ends in the index error exactly when one of the files' values does. */
  lemma {:induction false} FormatsThrown(hm: map<nat, FormatEntry>, facts: seq<FileFact>)
    ensures FormatsOf(hm, facts).thrown <==> exists j :: 0 <= j < |facts| && facts[j].scan.OutOfBounds?
  {
    if |facts| > 0 {
      var init := facts[..|facts| - 1];
      FormatsThrown(hm, init);
      if exists j :: 0 <= j < |init| && init[j].scan.OutOfBounds? {
        var j :| 0 <= j < |init| && init[j].scan.OutOfBounds?;
        assert facts[j] == init[j];
      }
      if exists j :: 0 <= j < |facts| && facts[j].scan.OutOfBounds? {
        var j :| 0 <= j < |facts| && facts[j].scan.OutOfBounds?;
        if j < |init| {
          assert init[j] == facts[j];
        }
      }
    }
  }

  /** A key is present after the loop exactly when it was before or some file is recognised under it. */
  lemma {:induction false} FormatsKeys(hm: map<nat, FormatEntry>, facts: seq<FileFact>, k: nat)
    requires !FormatsOf(hm, facts).thrown
    ensures k in FormatsOf(hm, facts).hm <==> k in hm || exists j :: 0 <= j < |facts| && Keyed(facts[j], k)
  {
    if |facts| > 0 {
      var init := facts[..|facts| - 1];
      FormatsKeys(hm, init, k);
      if exists j :: 0 <= j < |init| && Keyed(init[j], k) {
        var j :| 0 <= j < |init| && Keyed(init[j], k);
        assert facts[j] == init[j];
      }
      if exists j :: 0 <= j < |facts| && Keyed(facts[j], k) {
        var j :| 0 <= j < |facts| && Keyed(facts[j], k);
        if j < |init| {
          assert init[j] == facts[j];
        }
      }
    }
  }

  /** Without the error, a key recognised for some file holds the entry of the last file recognised under it. */
  lemma {:induction false} FormatsLastWins(hm: map<nat, FormatEntry>, facts: seq<FileFact>, j: nat, k: nat)
    requires !FormatsOf(hm, facts).thrown
    requires j < |facts| && Keyed(facts[j], k)
    requires forall i :: j < i < |facts| ==> !Keyed(facts[i], k)
    ensures k in FormatsOf(hm, facts).hm && FormatsOf(hm, facts).hm[k] == EntryOf(facts[j])
  {
    var init := facts[..|facts| - 1];
    if j < |init| {
      assert forall i :: j < i < |init| ==> init[i] == facts[i];
      FormatsLastWins(hm, init, j, k);
      assert !Keyed(facts[|facts| - 1], k);
    }
  }

  // ---------------------------------------------------------------------------
  // Meta information
  // ---------------------------------------------------------------------------

  /** The text content of the first element named `name`, if there is one. */
  function FirstText(root: Node, name: string): (r: Option<string>)
    ensures |ElementsNamed(root, name)| > 0 ==> r == Some(TextContent(ElementsNamed(root, name)[0]))
    ensures |ElementsNamed(root, name)| == 0 ==> r == None
  {
    var nodes := ElementsNamed(root, name);
    if |nodes| > 0 then Some(TextContent(nodes[0])) else None
  }

  /** A field after extractMetaInfo: the first such element's text, else what it held. */
  function MetaField(root: Node, name: string, prev: Option<string>): (r: Option<string>)
    ensures |ElementsNamed(root, name)| > 0 ==> r == Some(TextContent(ElementsNamed(root, name)[0]))
    ensures |ElementsNamed(root, name)| == 0 ==> r == prev
  {
    var found := FirstText(root, name);
    if found.Some? then found else prev
  }

  // ---------------------------------------------------------------------------
  // The new file in the descriptor
  // ---------------------------------------------------------------------------

  /** A point in time in the default time zone, as `new Date()` reads it. */
  datatype DateTime = DateTime(year: nat, month: nat, day: nat, hour: nat, minute: nat, second: nat)

  predicate ValidDateTime(d: DateTime) {
    1 <= d.month <= 12 && 1 <= d.day <= 31 && d.hour < 24 && d.minute < 60 && d.second < 60
  }

  /** A number written with at least `w` digits, zeros in front, as SimpleDateFormat writes a field. */
  function ZeroPad(n: nat, w: nat): (s: string)
    ensures AllDigits(s)
  {
    var d := NatToString(n);
    if |d| < w then seq(w - |d|, _ => '0') + d else d
  }

  /** The hour on a 12-hour clock, 1 to 12, as the letters `hh` write it. */
  function Hour12(h: nat): nat {
    if h % 12 == 0 then 12 else h % 12
  }

  /** `yyyyy-mm-dd` + "T" + `hh:mm:ss`: five-digit year, minutes in place of the month, 12-hour clock. */
  function StampAsWritten(d: DateTime): string {
    ZeroPad(d.year, 5) + "-" + ZeroPad(d.minute, 2) + "-" + ZeroPad(d.day, 2) + "T"
    + ZeroPad(Hour12(d.hour), 2) + ":" + ZeroPad(d.minute, 2) + ":" + ZeroPad(d.second, 2)
  }

  /** The xsd:dateTime form the element's datatype names: `yyyy-MM-ddTHH:mm:ss`. */
  function Stamp(d: DateTime): string {
    ZeroPad(d.year, 4) + "-" + ZeroPad(d.month, 2) + "-" + ZeroPad(d.day, 2) + "T"
    + ZeroPad(d.hour, 2) + ":" + ZeroPad(d.minute, 2) + ":" + ZeroPad(d.second, 2)
  }

  lemma {:induction false} ZerosValue(z: string)
    requires forall k :: 0 <= k < |z| ==> z[k] == '0'
    ensures AllDigits(z) && DigitsValue(z) == 0
  {
    if |z| > 0 {
      ZerosValue(z[..|z| - 1]);
    }
  }

  /** Leading zeros do not change the value of a run of digits. */
  lemma {:induction false} LeadingZerosValue(z: string, s: string)
    requires forall k :: 0 <= k < |z| ==> z[k] == '0'
    requires AllDigits(s)
    ensures AllDigits(z + s) && DigitsValue(z + s) == DigitsValue(s)
  {
    if |s| == 0 {
      assert z + s == z;
      ZerosValue(z);
    } else {
      LeadingZerosValue(z, s[..|s| - 1]);
      assert (z + s)[..|z + s| - 1] == z + s[..|s| - 1];
    }
  }

  function Pow10(k: nat): nat {
    if k == 0 then 1 else 10 * Pow10(k - 1)
  }

  /** A number below 10^k, k at least one, has at most k digits. */
  lemma {:induction false} DigitCount(n: nat, k: nat)
    requires n < Pow10(k) && k > 0
    ensures |NatToString(n)| <= k
  {
    if n >= 10 {
      assert k > 1;
      assert n / 10 < Pow10(k - 1);
      DigitCount(n / 10, k - 1);
    }
  }

  /** Padding a number that fits keeps its value and gives exactly `w` digits. */
  lemma ZeroPadFits(n: nat, w: nat)
    requires n < Pow10(w) && w > 0
    ensures |ZeroPad(n, w)| == w && DigitsValue(ZeroPad(n, w)) == n
  {
    DigitCount(n, w);
    ParseToString(n);
    var d := NatToString(n);
    if |d| < w {
      LeadingZerosValue(seq(w - |d|, _ => '0'), d);
    }
  }

  /** Where the fields sit in `y-a-bTc:d:e`, the year `y` of any width and the other fields two characters each. */
  lemma Layout(y: string, a: string, b: string, c: string, d: string, e: string)
    requires |a| == 2 && |b| == 2 && |c| == 2 && |d| == 2 && |e| == 2
    ensures var s := y + "-" + a + "-" + b + "T" + c + ":" + d + ":" + e;
      var w := |y|;
      |s| == w + 15 && s[..w] == y && s[w] == '-' && s[w + 1..w + 3] == a && s[w + 3] == '-'
      && s[w + 4..w + 6] == b && s[w + 6] == 'T' && s[w + 7..w + 9] == c && s[w + 9] == ':'
      && s[w + 10..w + 12] == d && s[w + 12] == ':' && s[w + 13..w + 15] == e
  {
    var w := |y|;
    var date := y + "-" + a + "-" + b;
    var time := c + ":" + d + ":" + e;
    var s := y + "-" + a + "-" + b + "T" + c + ":" + d + ":" + e;
    assert s == date + "T" + time;
    assert date[..w] == y && date[w + 1..w + 3] == a && date[w + 4..w + 6] == b;
    assert time[..2] == c && time[3..5] == d && time[6..8] == e;
    assert s[..w + 6] == date;
    assert s[w + 7..] == time;
  }

  /** Each two-digit field of a stamp reads back as the number written there. */
  lemma Field2(n: nat)
    requires n < 100
    ensures |ZeroPad(n, 2)| == 2 && DigitsValue(ZeroPad(n, 2)) == n
  {
    assert Pow10(2) == 100;
    ZeroPadFits(n, 2);
  }

  /**
   * The stamp as written: a five-digit year, then the minute where the month belongs,
   * then the day, and the hour on a 12-hour clock; twenty characters.
   */
  lemma StampAsWrittenFields(d: DateTime)
    requires ValidDateTime(d) && d.year < 100000
    ensures var s := StampAsWritten(d);
      |s| == 20 && s[11] == 'T'
      && AllDigits(s[6..8]) && DigitsValue(s[6..8]) == d.minute
      && AllDigits(s[12..14]) && DigitsValue(s[12..14]) == Hour12(d.hour)
  {
    assert Pow10(5) == 100000;
    ZeroPadFits(d.year, 5);
    Field2(d.minute);
    Field2(d.day);
    Field2(Hour12(d.hour));
    Field2(d.second);
    Layout(ZeroPad(d.year, 5), ZeroPad(d.minute, 2), ZeroPad(d.day, 2), ZeroPad(Hour12(d.hour), 2),
           ZeroPad(d.minute, 2), ZeroPad(d.second, 2));
  }

  /**
   * At 19:51:46 on 14 September 2004 the stamp as written is 20 characters long, shows
   * 51 where the month belongs and 07 as the hour: not an xsd:dateTime of that moment.
   */
  lemma StampAsWrittenExample()
    ensures var s := StampAsWritten(DateTime(2004, 9, 14, 19, 51, 46));
      |s| == 20 && AllDigits(s[6..8]) && DigitsValue(s[6..8]) == 51
      && AllDigits(s[12..14]) && DigitsValue(s[12..14]) == 7
  {
    StampAsWrittenFields(DateTime(2004, 9, 14, 19, 51, 46));
  }

  /**
   * The intended stamp has the xsd:dateTime layout, and each field reads back as the
   * year, month, day, hour, minute and second it was written from.
   */
  lemma StampFields(d: DateTime)
    requires ValidDateTime(d) && d.year < 10000
    ensures var s := Stamp(d);
      |s| == 19 && s[4] == '-' && s[7] == '-' && s[10] == 'T' && s[13] == ':' && s[16] == ':'
      && AllDigits(s[0..4]) && DigitsValue(s[0..4]) == d.year
      && AllDigits(s[5..7]) && DigitsValue(s[5..7]) == d.month
      && AllDigits(s[8..10]) && DigitsValue(s[8..10]) == d.day
      && AllDigits(s[11..13]) && DigitsValue(s[11..13]) == d.hour
      && AllDigits(s[14..16]) && DigitsValue(s[14..16]) == d.minute
      && AllDigits(s[17..19]) && DigitsValue(s[17..19]) == d.second
  {
    assert Pow10(4) == 10000;
    ZeroPadFits(d.year, 4);
    Field2(d.month);
    Field2(d.day);
    Field2(d.hour);
    Field2(d.minute);
    Field2(d.second);
    Layout(ZeroPad(d.year, 4), ZeroPad(d.month, 2), ZeroPad(d.day, 2), ZeroPad(d.hour, 2),
           ZeroPad(d.minute, 2), ZeroPad(d.second, 2));
    var s := Stamp(d);
    assert s[0..4] == s[..4];
  }

  const XsdInteger := "http://www.w3.org/2001/XMLSchema#integer"
  const XsdDateTime := "http://www.w3.org/2001/XMLSchema#dateTime"
  const Imt := "http://purl.org/dc/terms/IMT"

  /** The address of the TEI XML file of book `id` under `xmlURL`. */
  function XmlFileURL(xmlURL: string, id: string): string {
    xmlURL + id + "/" + id + ".xml"
  }

  /** The dcterms:extent child of the new file: its size in bytes. */
  function ExtentNode(size: nat): Node {
    TextElement("dcterms:extent", [Attr("rdf:datatype", XsdInteger)], NatToString(size))
  }

  /** The rdf:value under the new file's format: the type line with the character set. */
  function ValueNode(charSet: string): Node {
    TextElement("rdf:value", [Attr("rdf:datatype", Imt)], "text/xml; charset=" + charSet)
  }

  /** The dcterms:format child of the new file. */
  function FormatNode(charSet: string): Node {
    Element("dcterms:format", [], [
      Element("rdf:Description", [], [
        Element("dcam:memberOf", [Attr("rdf:resource", Imt)], []),
        ValueNode(charSet)
      ])
    ])
  }

  function IsFormatOfNode(id: string): Node {
    Element("dcterms:isFormatOf", [Attr("rdf:resource", "ebooks/" + id)], [])
  }

  function ModifiedNode(stamp: string): Node {
    TextElement("dcterms:modified", [Attr("rdf:datatype", XsdDateTime)], stamp)
  }

  /** The pgterms:file element describing the TEI XML file. */
  function FileNode(xmlURL: string, size: nat, charSet: string, id: string, stamp: string): Node {
    Element("pgterms:file", [Attr("rdf:about", XmlFileURL(xmlURL, id))],
      [ExtentNode(size), FormatNode(charSet), IsFormatOfNode(id), ModifiedNode(stamp)])
  }

  /** The dcterms:hasFormat element pointing at the TEI XML file. */
  function HasFormatNode(xmlURL: string, id: string): Node {
    Element("dcterms:hasFormat", [Attr("rdf:resource", XmlFileURL(xmlURL, id))], [])
  }

  /**
   * The new format inside the first pgterms:ebook: after a first child named "creator",
   * else in front; an ebook without children has no first child to ask its name (None).
   */
  function EbookWithFormat(ebook: Node, x: Node): Option<Node> {
    if !ebook.Element? || |ebook.children| == 0 then None
    else if ebook.children[0].Element? && ebook.children[0].name == "creator" then
      Some(ebook.(children := ebook.children[..1] + [x] + ebook.children[1..]))
    else Some(ebook.(children := [x] + ebook.children))
  }

  /**
   * Where the dcterms:hasFormat goes: before the first one there is; else into the first
   * pgterms:ebook; else into a new ebook appended to the document, which already has
   * its element and refuses a second one (None).
   */
  function AddHasFormat(root: Node, x: Node): Option<Node> {
    if |ElementsNamed(root, "dcterms:hasFormat")| > 0 then
      InsertBeforeFirst(root, "dcterms:hasFormat", x)
    else if |ElementsNamed(root, "pgterms:ebook")| > 0 then
      match EbookWithFormat(ElementsNamed(root, "pgterms:ebook")[0], x)
      case None => None
      case Some(e) => Some(ReplaceFirst(root, "pgterms:ebook", e))
    else None
  }

  /** The file node goes before the first pgterms:file; without one, the document refuses it (None). */
  function AddFile(root: Node, x: Node): Option<Node> {
    if |ElementsNamed(root, "pgterms:file")| > 0 then InsertBeforeFirst(root, "pgterms:file", x)
    else None
  }

  /** The descriptor after addDocumentInfo, and whether a DOM operation threw on the way. */
  datatype Edit = Edit(root: Node, thrown: bool)

  function AddInfo(root: Node, xmlURL: string, size: nat, charSet: string, id: string, stamp: string): Edit {
    match AddHasFormat(root, HasFormatNode(xmlURL, id))
    case None => Edit(root, true)
    case Some(r1) =>
      match AddFile(r1, FileNode(xmlURL, size, charSet, id, stamp))
      case None => Edit(r1, true)
      case Some(r2) => Edit(r2, false)
  }

  lemma ValueTextsInCons(n: Node, rest: seq<Node>, parentIsValue: bool)
    ensures ValueTextsIn([n] + rest, parentIsValue)
         == ValueTextsIn([n], parentIsValue) + ValueTextsIn(rest, parentIsValue)
  {
    assert ([n] + rest)[1..] == rest;
    assert [n][1..] == [];
  }

  /** The format child holds the one value of the new file. */
  lemma FormatNodeValues(charSet: string)
    ensures ValueTextsIn([FormatNode(charSet)], false) == ["text/xml; charset=" + charSet]
  {
    var v := "text/xml; charset=" + charSet;
    var value := ValueNode(charSet);
    assert ValueTextsIn([Text(v)], true) == [v] by { assert [Text(v)][1..] == []; }
    assert ValueTextsIn([value], false) == [v] by { assert [value][1..] == []; }
    var member := Element("dcam:memberOf", [Attr("rdf:resource", Imt)], []);
    assert ValueTextsIn([member], false) == [] by { assert [member][1..] == []; }
    ValueTextsInCons(member, [value], false);
    var desc := Element("rdf:Description", [], [member, value]);
    assert [member, value] == [member] + [value];
    assert ValueTextsIn([desc], false) == [v] by { assert [desc][1..] == []; }
    var format := FormatNode(charSet);
    assert [format][1..] == [];
  }

  /** A child holding at most one text, or none, under a name other than rdf:value, holds no value. */
  lemma LeafValues(n: Node)
    requires n.Element? && n.name != "rdf:value"
    requires |n.children| <= 1 && forall k :: 0 <= k < |n.children| ==> n.children[k].Text?
    ensures ValueTextsIn([n], false) == []
  {
    assert [n][1..] == [];
    if |n.children| == 1 {
      assert n.children[1..] == [];
    }
  }

  /** The values below four siblings are those below each, in order. */
  lemma ValueTextsInFour(a: Node, b: Node, c: Node, d: Node, parentIsValue: bool)
    ensures ValueTextsIn([a, b, c, d], parentIsValue)
         == ValueTextsIn([a], parentIsValue) + ValueTextsIn([b], parentIsValue)
            + ValueTextsIn([c], parentIsValue) + ValueTextsIn([d], parentIsValue)
  {
    ValueTextsInCons(c, [d], parentIsValue);
    ValueTextsInCons(b, [c, d], parentIsValue);
    ValueTextsInCons(a, [b, c, d], parentIsValue);
    assert [a, b, c, d] == [a] + [b, c, d];
    assert [b, c, d] == [b] + [c, d];
    assert [c, d] == [c] + [d];
  }

  /** The new file's values: only the type line, since only it sits under an rdf:value. */
  lemma FileNodeValues(xmlURL: string, size: nat, charSet: string, id: string, stamp: string)
    ensures ValueTexts(FileNode(xmlURL, size, charSet, id, stamp)) == ["text/xml; charset=" + charSet]
  {
    var extent, format, isFormatOf, modified := ExtentNode(size), FormatNode(charSet), IsFormatOfNode(id), ModifiedNode(stamp);
    FormatNodeValues(charSet);
    LeafValues(extent);
    LeafValues(isFormatOf);
    LeafValues(modified);
    ValueTextsInFour(extent, format, isFormatOf, modified, false);
  }

  /**
   * Reading the added file back as formatURLsFromDoc does gives its address, the type
   * text/xml and the character set written; it is never taken for an edition to convert.
   */
  lemma FileNodeReadsBack(xmlURL: string, size: nat, charSet: string, id: string, stamp: string)
    requires forall k :: 0 <= k < |charSet| ==> charSet[k] != ';'
    requires !Contains(charSet, "charset=")
    ensures var f := FileNode(xmlURL, size, charSet, id, stamp);
      FactOf(f) == FileFact(XmlFileURL(xmlURL, id), Scan("text/xml", charSet))
      && Classify(FileURL(f), "text/xml") == None
  {
    var f := FileNode(xmlURL, size, charSet, id, stamp);
    assert f.attrs[0].name == "rdf:about";
    assert FileURL(f) == XmlFileURL(xmlURL, id);
    FileNodeScan(xmlURL, size, charSet, id, stamp);
  }

  lemma FileNodeScan(xmlURL: string, size: nat, charSet: string, id: string, stamp: string)
    requires forall k :: 0 <= k < |charSet| ==> charSet[k] != ';'
    requires !Contains(charSet, "charset=")
    ensures FileScan(FileNode(xmlURL, size, charSet, id, stamp)) == Scan("text/xml", charSet)
  {
    FileNodeValues(xmlURL, size, charSet, id, stamp);
    assert "text/xml; charset=" + charSet == "text/xml" + "; charset=" + charSet;
    SingleValueScan(FileNode(xmlURL, size, charSet, id, stamp), "text/xml", charSet);
  }

  /** A file whose only value is `a; charset=cs` has the type `a` and the character set `cs`. */
  lemma SingleValueScan(file: Node, a: string, cs: string)
    requires forall k :: 0 <= k < |a| ==> a[k] != ';'
    requires forall k :: 0 <= k < |cs| ==> cs[k] != ';'
    requires !Contains(cs, "charset=")
    requires ValueTexts(file) == [a + "; charset=" + cs]
    ensures FileScan(file) == Scan(a, cs)
  {
    var v := a + "; charset=" + cs;
    assert OccursAt(v, |a|, "; ");
    DecideFirstSeparator([v], 0, "", "", 0);
    TypeAndCharset(a, cs);
  }

  /** An element whose children are at most one text holds no element named `name` unless it is one. */
  lemma LeafNamed(n: Node, name: string)
    requires n.Element? && n.name != name
    requires |n.children| <= 1 && forall k :: 0 <= k < |n.children| ==> n.children[k].Text?
    ensures ElementsNamedIn([n], name) == []
  {
    assert [n][1..] == [];
    if |n.children| == 1 {
      assert n.children[1..] == [];
      assert ElementsNamed(n.children[0], name) == [];
    }
    assert ElementsNamedIn(n.children, name) == [];
  }

  /** The new file holds no other pgterms:file, so it is the only one it adds. */
  lemma FileNodeAlone(xmlURL: string, size: nat, charSet: string, id: string, stamp: string)
    ensures var f := FileNode(xmlURL, size, charSet, id, stamp);
      ElementsNamed(f, "pgterms:file") == [f]
  {
    var name := "pgterms:file";
    var value := ValueNode(charSet);
    var member := Element("dcam:memberOf", [Attr("rdf:resource", Imt)], []);
    LeafNamed(member, name);
    LeafNamed(value, name);
    ElementsNamedInConcat([member], [value], name);
    assert [member, value] == [member] + [value];
    var desc := Element("rdf:Description", [], [member, value]);
    assert ElementsNamedIn([desc], name) == [] by { assert [desc][1..] == []; }
    var extent, format, isFormatOf, modified := ExtentNode(size), FormatNode(charSet), IsFormatOfNode(id), ModifiedNode(stamp);
    assert ElementsNamedIn([format], name) == [] by { assert [format][1..] == []; }
    LeafNamed(extent, name);
    LeafNamed(isFormatOf, name);
    LeafNamed(modified, name);
    ElementsNamedInConcat([extent], [format], name);
    ElementsNamedInConcat([extent, format], [isFormatOf], name);
    ElementsNamedInConcat([extent, format, isFormatOf], [modified], name);
    assert [extent, format, isFormatOf, modified] == [extent, format, isFormatOf] + [modified];
    assert [extent, format, isFormatOf] == [extent, format] + [isFormatOf];
    assert [extent, format] == [extent] + [format];
  }

  /**
   * After a successful addDocumentInfo the new format comes first among the
   * dcterms:hasFormat elements when there were some.
   */
  lemma AddInfoFormatFirst(root: Node, xmlURL: string, id: string)
    requires AddHasFormat(root, HasFormatNode(xmlURL, id)).Some?
    requires |ElementsNamed(root, "dcterms:hasFormat")| > 0
    ensures var x := HasFormatNode(xmlURL, id);
      ElementsNamed(AddHasFormat(root, x).value, "dcterms:hasFormat") == [x] + ElementsNamed(root, "dcterms:hasFormat")
  {
    var x := HasFormatNode(xmlURL, id);
    assert ElementsNamed(x, "dcterms:hasFormat") == [x];
    InsertBeforeFirstNamed(root, "dcterms:hasFormat", x);
  }

  /**
   * After a successful addDocumentInfo the new file comes first among the pgterms:file
   * elements, the others following in their order.
   */
  lemma AddInfoFileFirst(root: Node, xmlURL: string, size: nat, charSet: string, id: string, stamp: string)
    requires !AddInfo(root, xmlURL, size, charSet, id, stamp).thrown
    ensures var r1 := AddHasFormat(root, HasFormatNode(xmlURL, id)).value;
      var f := FileNode(xmlURL, size, charSet, id, stamp);
      ElementsNamed(AddInfo(root, xmlURL, size, charSet, id, stamp).root, "pgterms:file")
        == [f] + ElementsNamed(r1, "pgterms:file")
  {
    var f := FileNode(xmlURL, size, charSet, id, stamp);
    FileNodeAlone(xmlURL, size, charSet, id, stamp);
    var r1 := AddHasFormat(root, HasFormatNode(xmlURL, id)).value;
    InsertBeforeFirstNamed(r1, "pgterms:file", f);
  }

  // ---------------------------------------------------------------------------
  // The descriptor as an object
  // ---------------------------------------------------------------------------

  class BookRDF {
    /** The descriptor's address; unset when java.net.URL rejected it. */
    var rdfURL: Option<string>
    /** The document element of the parsed descriptor, once loaded. */
    var mydoc: Option<Node>
    var myHM: map<nat, FormatEntry>
    var issued: Option<string>
    var language: Option<string>
    var publisher: Option<string>
    var rights: Option<string>
    var title: Option<string>

    /** `urlAccepted` is whether java.net.URL parses `someurl`. */
    constructor (someurl: string, urlAccepted: bool)
      ensures rdfURL == (if urlAccepted then Some(someurl) else None)
      ensures mydoc == None && myHM == map[]
      ensures issued == None && language == None && publisher == None && rights == None && title == None
    {
      rdfURL := if urlAccepted then Some(someurl) else None;
      mydoc := None;
      myHM := map[];
      issued, language, publisher, rights, title := None, None, None, None, None;
    }

    /** loadRDF. `parsed` is the document element of the fetched text, when it parses. */
    method LoadRDF(parsed: Option<Node>)
      modifies this
      ensures mydoc == (if old(rdfURL).Some? && parsed.Some? then parsed else old(mydoc))
      ensures rdfURL == old(rdfURL) && myHM == old(myHM)
      ensures issued == old(issued) && language == old(language) && publisher == old(publisher)
      ensures rights == old(rights) && title == old(title)
    {
      if rdfURL.None? {
        return;
      }
      if parsed.Some? {
        mydoc := parsed;
      }
    }

    /** The inner loop of formatURLsFromDoc over one file's values, up to the first "; ". */
    static method TypeEncoding(vals: seq<string>) returns (sc: Scan)
      ensures sc == Outcome(Decide(vals, 0, "", ""))
    {
      var encoding, mimetype := "", "";
      var t := 0;
      while t < |vals|
        invariant t <= |vals|
        invariant Decide(vals, 0, "", "") == Decide(vals, t, mimetype, encoding)
      {
        var val := vals[t];
        if Contains(val, "; ") {
          var parts := SplitSemicolon(val);
          if |parts| < 2 {
            return OutOfBounds;
          }
          mimetype := parts[0];
          encoding := RemoveAll(parts[1], "charset=");
          return Scan(mimetype, encoding);
        } else {
          mimetype := Trim(val);
        }
        t := t + 1;
      }
      return Scan(mimetype, encoding);
    }

    /**
     * formatURLsFromDoc: every pgterms:file in document order, the recognised ones
     * stored under their key. `thrown` is the index error, which leaves the map as far
     * as the loop got.
     */
    method FormatURLsFromDoc() returns (thrown: bool)
      modifies this
      ensures old(mydoc).None? ==> myHM == old(myHM) && !thrown
      ensures old(mydoc).Some? ==>
                FormatsOf(old(myHM), FactsOf(ElementsNamed(old(mydoc).value, "pgterms:file"))) == Formats(myHM, thrown)
      ensures rdfURL == old(rdfURL) && mydoc == old(mydoc)
      ensures issued == old(issued) && language == old(language) && publisher == old(publisher)
      ensures rights == old(rights) && title == old(title)
    {
      if mydoc.None? {
        return false;
      }
      var nodes := ElementsNamed(mydoc.value, "pgterms:file");
      ghost var facts := FactsOf(nodes);
      var hm: map<nat, FormatEntry> := myHM;
      ghost var hm0 := myHM;
      for i := 0 to |nodes|
        invariant FormatsOf(hm0, facts[..i]) == Formats(hm, false)
        invariant rdfURL == old(rdfURL) && mydoc == old(mydoc) && myHM == old(myHM)
        invariant issued == old(issued) && language == old(language) && publisher == old(publisher)
        invariant rights == old(rights) && title == old(title)
      {
        assert facts[..i + 1][..i] == facts[..i];
        var fileURL, sc := ScanFile(nodes[i]);
        if sc.OutOfBounds? {
          FormatsStopped(hm0, facts, i + 1);
          myHM := hm;
          return true;
        }
        hm := Store(hm, fileURL, sc.mimetype, sc.encoding);
      }
      assert facts[..|nodes|] == facts;
      myHM := hm;
      return false;
    }

    /** The start of one pass of formatURLsFromDoc: the file's rdf:about and the loop over its values. */
    static method ScanFile(fileNode: Node) returns (fileURL: string, sc: Scan)
      ensures FileFact(fileURL, sc) == FactOf(fileNode)
    {
      fileURL := if fileNode.Element? then GetAttr(fileNode.attrs, "rdf:about").GetOr("") else "";
      sc := TypeEncoding(ValueTexts(fileNode));
    }

    /** The chain of rules at the end of one pass of formatURLsFromDoc. */
    static method Store(hm: map<nat, FormatEntry>, fileURL: string, mimetype: string, encoding: string)
      returns (hm': map<nat, FormatEntry>)
      ensures Formats(hm', false) == FormatsStep(hm, FileFact(fileURL, Scan(mimetype, encoding)))
    {
      var res := FormatEntry(fileURL, mimetype, encoding);
      hm' := hm;
      if EndsWith(fileURL, "-h.htm") && mimetype == "text/html" {
        hm' := hm[HTML := res];
      } else if EndsWith(fileURL, "-h.zip") && mimetype == "text/html" {
        hm' := hm[HTML_ZIP := res];
      } else if EndsWith(fileURL, "epub.images") && mimetype == "application/epub+zip" {
        hm' := hm[EPUB := res];
      } else if EndsWith(fileURL, "epub.noimages") && mimetype == "application/epub+zip" {
        hm' := hm[EPUB_NO_I := res];
      }
    }

    /** extractMetaInfo: the text of the first dcterms element of each kind, where there is one. */
    method ExtractMetaInfo()
      modifies this
      ensures old(mydoc).None? ==>
                language == old(language) && publisher == old(publisher) && rights == old(rights)
                && title == old(title) && issued == old(issued)
      ensures old(mydoc).Some? ==>
                var root := old(mydoc).value;
                language == MetaField(root, "dcterms:language", old(language))
                && publisher == MetaField(root, "dcterms:publisher", old(publisher))
                && rights == MetaField(root, "dcterms:rights", old(rights))
                && title == MetaField(root, "dcterms:title", old(title))
                && issued == MetaField(root, "dcterms:issued", old(issued))
      ensures rdfURL == old(rdfURL) && mydoc == old(mydoc) && myHM == old(myHM)
    {
      if mydoc.None? {
        return;
      }
      var root := mydoc.value;
      language := MetaFieldOf(root, "dcterms:language", language);
      publisher := MetaFieldOf(root, "dcterms:publisher", publisher);
      rights := MetaFieldOf(root, "dcterms:rights", rights);
      title := MetaFieldOf(root, "dcterms:title", title);
      issued := MetaFieldOf(root, "dcterms:issued", issued);
    }

    /** One step of extractMetaInfo: the text of the first element named `name`, or `prev` without one. */
    static method MetaFieldOf(root: Node, name: string, prev: Option<string>) returns (r: Option<string>)
      ensures r == MetaField(root, name, prev)
    {
      r := prev;
      var nodes := ElementsNamed(root, name);
      if |nodes| > 0 {
        r := Some(TextContent(nodes[0]));
      }
    }

    /** process: load, read the formats, read the meta information; the index error skips the last step. */
    method Process(parsed: Option<Node>) returns (thrown: bool)
      modifies this
      ensures rdfURL == old(rdfURL)
      ensures mydoc == (if old(rdfURL).Some? && parsed.Some? then parsed else old(mydoc))
      ensures mydoc.None? ==> myHM == old(myHM) && !thrown
      ensures mydoc.Some? ==> FormatsOf(old(myHM), FactsOf(ElementsNamed(mydoc.value, "pgterms:file"))) == Formats(myHM, thrown)
      ensures thrown || mydoc.None? ==>
                language == old(language) && publisher == old(publisher) && rights == old(rights)
                && title == old(title) && issued == old(issued)
      ensures !thrown && mydoc.Some? ==>
                var root := mydoc.value;
                publisher == MetaField(root, "dcterms:publisher", old(publisher))
                && language == MetaField(root, "dcterms:language", old(language))
                && rights == MetaField(root, "dcterms:rights", old(rights))
                && title == MetaField(root, "dcterms:title", old(title))
                && issued == MetaField(root, "dcterms:issued", old(issued))
    {
      LoadRDF(parsed);
      thrown := FormatURLsFromDoc();
      if thrown {
        return;
      }
      ExtractMetaInfo();
    }

    /**
     * addDocumentInfo, with the corrected time stamp of `now`. A DOM operation that
     * throws leaves the descriptor as far as it got.
     */
    method AddDocumentInfo(xmlURL: string, size: nat, charSet: string, id: string, now: DateTime)
      returns (thrown: bool)
      modifies this
      ensures old(mydoc).None? ==> thrown && mydoc == old(mydoc)
      ensures old(mydoc).Some? ==>
                var e := AddInfo(old(mydoc).value, xmlURL, size, charSet, id, Stamp(now));
                mydoc == Some(e.root) && thrown == e.thrown
      ensures rdfURL == old(rdfURL) && myHM == old(myHM)
      ensures issued == old(issued) && language == old(language) && publisher == old(publisher)
      ensures rights == old(rights) && title == old(title)
    {
      if mydoc.None? {
        return true;
      }
      var root := mydoc.value;
      var fileNode := FileNode(xmlURL, size, charSet, id, Stamp(now));
      var hasFormatNode := HasFormatNode(xmlURL, id);
      var nodes := ElementsNamed(root, "dcterms:hasFormat");
      if |nodes| > 0 {
        var r1 := InsertBeforeFirst(root, "dcterms:hasFormat", hasFormatNode);
        if r1.None? {
          return true;
        }
        root := r1.value;
      } else {
        var ebookNodes := ElementsNamed(root, "pgterms:ebook");
        if |ebookNodes| > 0 {
          var ebook := EbookWithFormat(ebookNodes[0], hasFormatNode);
          if ebook.None? {
            return true;
          }
          root := ReplaceFirst(root, "pgterms:ebook", ebook.value);
        } else {
          return true;
        }
      }
      mydoc := Some(root);
      nodes := ElementsNamed(root, "pgterms:file");
      if |nodes| > 0 {
        var r2 := InsertBeforeFirst(root, "pgterms:file", fileNode);
        if r2.None? {
          return true;
        }
        mydoc := r2;
        return false;
      }
      return true;
    }
  }
}
