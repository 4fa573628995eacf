/**
 * What the SAX handler promises, stated on the steps of RdfParser: the tag lookup
 * behind the else-if chains, the numeric id taken from rdf:ID, the attribute loops,
 * the character buffer, the entry counter, the context flags, and the end of an entry.
 */
module RdfParserFacts {
  import opened Wrappers
  import opened Strings
  import opened XmlTree
  import opened TeiDoc
  import opened BookRdf
  import opened RdfParser

  // ---------------------------------------------------------------------------
  // The tag lookup
  // ---------------------------------------------------------------------------

  /** Two strings that are equal ignoring case agree on their length and on every folded character. */
  function Key(s: string): (int, char, char) {
    if |s| > 2 then (|s|, ToLower(s[0]), ToLower(s[2])) else (|s|, ' ', ' ')
  }

  lemma KeyOfEqualIgnoringCase(a: string, b: string)
    requires EqualsIgnoreCase(a, b)
    ensures Key(a) == Key(b)
  {
    if |a| > 2 {
      assert ToLower(a[0]) == ToLower(b[0]) && ToLower(a[2]) == ToLower(b[2]);
    }
  }

  /** The tag a key belongs to: the length and two folded characters tell the fifteen names apart. */
  function TagOfKey(k: (int, char, char)): Tag {
    match k
    case (13, _, _) => Etext
    case (11, _, ':') => Language
    case (11, _, _) => LCC
    case (14, _, 't') => W3CDTF
    case (14, _, _) => Description
    case (16, _, _) => ISO639
    case (12, _, 't') => LCSH
    case (12, _, _) => Publisher
    case (7, _, _) => DcType
    case (9, 'd', _) => Rights
    case (9, _, _) => Value
    case (8, _, _) => Title
    case (10, _, _) => Creator
    case (21, _, _) => FriendlyTitle
    case (18, _, _) => TableOfContents
    case _ => Other
  }

  lemma TagOfKeyInverts(t: Tag)
    requires t != Other
    ensures TagOfKey(Key(NameOf(t))) == t
  {
  }

  /** No two of the names the handler compares with are equal ignoring case. */
  lemma NamesDistinct(t: Tag, u: Tag)
    requires t != Other && u != Other && t != u
    ensures !EqualsIgnoreCase(NameOf(t), NameOf(u))
  {
    if EqualsIgnoreCase(NameOf(t), NameOf(u)) {
      KeyOfEqualIgnoringCase(NameOf(t), NameOf(u));
      TagOfKeyInverts(t);
      TagOfKeyInverts(u);
    }
  }

  lemma {:induction false} FirstFromMatches(qName: string, t: Tag)
    ensures FirstFrom(qName, t) != Other ==> EqualsIgnoreCase(qName, NameOf(FirstFrom(qName, t)))
    decreases Rank(t)
  {
    if t != Other && !EqualsIgnoreCase(qName, NameOf(t)) {
      FirstFromMatches(qName, Next(t));
    }
  }

  /** A name equals at most one of the listed names ignoring case. */
  lemma MatchUnique(qName: string, s: Tag, t: Tag)
    requires s != Other && t != Other
    requires EqualsIgnoreCase(qName, NameOf(s)) && EqualsIgnoreCase(qName, NameOf(t))
    ensures s == t
  {
    KeyOfEqualIgnoringCase(qName, NameOf(s));
    KeyOfEqualIgnoringCase(qName, NameOf(t));
    TagOfKeyInverts(s);
    TagOfKeyInverts(t);
  }

  lemma {:induction false} FirstFromReaches(qName: string, s: Tag, t: Tag)
    requires t != Other && Rank(s) >= Rank(t) && EqualsIgnoreCase(qName, NameOf(t))
    ensures FirstFrom(qName, s) == t
    decreases Rank(s)
  {
    if s != t {
      assert s != Other && Rank(s) > Rank(t);
      if EqualsIgnoreCase(qName, NameOf(s)) {
        MatchUnique(qName, s, t);
      }
      FirstFromReaches(qName, Next(s), t);
    }
  }

  /**
   * The else-if chains of startElement and endElement read as a lookup: an element is
   * taken for a listed name exactly when its name equals that one ignoring case.
   */
  lemma TagOfIff(qName: string, t: Tag)
    requires t != Other
    ensures TagOf(qName) == t <==> EqualsIgnoreCase(qName, NameOf(t))
  {
    FirstFromMatches(qName, Etext);
    if EqualsIgnoreCase(qName, NameOf(t)) {
      FirstFromReaches(qName, Etext, t);
    }
  }

  /** Any other name is ignored by both chains. */
  lemma TagOfOther(qName: string)
    ensures TagOf(qName) == Other <==> forall t :: t != Other ==> !EqualsIgnoreCase(qName, NameOf(t))
  {
    FirstFromMatches(qName, Etext);
    forall t | t != Other
      ensures !EqualsIgnoreCase(qName, NameOf(t)) || TagOf(qName) != Other
    {
      if EqualsIgnoreCase(qName, NameOf(t)) {
        TagOfIff(qName, t);
      }
    }
  }

  // ---------------------------------------------------------------------------
  // matcher.find() for \d+$
  // ---------------------------------------------------------------------------

  /** A digit followed by `$` can only end where DigitsEnd says. */
  lemma MatchEnd(s: string, i: nat, e: nat)
    requires DigitsMatch(s, i, e)
    ensures DigitsEnd(s) == Some(e)
  {
    assert IsDigit(s[e - 1]);
  }

  /** The run of digits ending at `e` cannot be extended to the left. */
  lemma {:induction false} RunStartMaximal(s: string, e: nat)
    requires e <= |s|
    ensures RunStart(s, e) > 0 ==> !IsDigit(s[RunStart(s, e) - 1])
    decreases e
  {
    if e > 0 && IsDigit(s[e - 1]) {
      RunStartMaximal(s, e - 1);
    }
  }

  /**
   * TrailingDigits is what `matcher.find()` finds: nothing when `\d+$` matches nowhere,
   * and otherwise the leftmost match, whose end is the only one possible.
   */
  lemma TrailingDigitsFind(s: string)
    ensures TrailingDigits(s).None? <==> forall i: nat, e: nat :: !DigitsMatch(s, i, e)
    ensures TrailingDigits(s).Some? ==>
              exists i: nat, e: nat :: DigitsMatch(s, i, e) && TrailingDigits(s).value == s[i..e] &&
                forall i': nat, e': nat :: DigitsMatch(s, i', e') ==> e' == e && i <= i'
  {
    forall i: nat, e: nat | DigitsMatch(s, i, e)
      ensures DigitsEnd(s) == Some(e)
    {
      MatchEnd(s, i, e);
    }
    if DigitsEnd(s).Some? {
      var e := DigitsEnd(s).value;
      var i := RunStart(s, e);
      assert IsDigit(s[e - 1]);
      assert DigitsMatch(s, i, e);
      RunStartMaximal(s, e);
      forall i': nat, e': nat | DigitsMatch(s, i', e')
        ensures e' == e && i <= i'
      {
        MatchEnd(s, i', e');
      }
    }
  }

  /** The usual catalog id, one without digits, and one before a final line terminator. */
  lemma TrailingDigitsExamples()
    ensures TrailingDigits("etext12345") == Some("12345")
    ensures TrailingDigits("etext") == None
    ensures TrailingDigits("etext12\n") == Some("12")
    ensures TrailingDigits("12ab") == None
  {
    var a := "etext12345";
    assert DigitsEnd(a) == Some(10);
    assert RunStart(a, 5) == 5;
    assert RunStart(a, 6) == 5;
    assert RunStart(a, 7) == 5;
    assert RunStart(a, 8) == 5;
    assert RunStart(a, 9) == 5;
    assert RunStart(a, 10) == 5;
    assert a[5..10] == "12345";
    var b := "etext12\n";
    assert DigitsEnd(b) == Some(7);
    assert RunStart(b, 5) == 5;
    assert RunStart(b, 6) == 5;
    assert RunStart(b, 7) == 5;
    assert b[5..7] == "12";
  }

  /** The rdf:ID of the catalog's usual form sets both the id and its number. */
  lemma ReadIdsExample()
    ensures ReadIds([Attr("rdf:about", "x"), Attr("rdf:ID", "etext12345")], EmptyRecord)
            == IdRead(EmptyRecord.(id := Some("etext12345"), idN := 12345), false)
  {
    TrailingDigitsExamples();
    var d := "12345";
    assert d[..4] == "1234" && d[..4][..3] == "123" && d[..4][..3][..2] == "12" && d[..4][..3][..2][..1] == "1";
    assert DigitsValue("1") == 1;
    assert DigitsValue("12") == 12;
    assert DigitsValue("123") == 123;
    assert DigitsValue("1234") == 1234;
    assert DigitsValue(d) == 12345;
    var attrs := [Attr("rdf:about", "x"), Attr("rdf:ID", "etext12345")];
    assert !EqualsIgnoreCase(attrs[0].name, "rdf:ID");
    assert EqualsIgnoreCase(attrs[1].name, "rdf:ID");
    assert attrs[1..][1..] == [];
  }

  // ---------------------------------------------------------------------------
  // The attribute loops
  // ---------------------------------------------------------------------------

  /** The pgterms:etext attribute loop sets the id and its number and nothing else. */
  lemma {:induction false} ReadIdsFrame(attrs: seq<Attr>, rec: EntryRecord)
    ensures var r := ReadIds(attrs, rec).rec; r == rec.(id := r.id, idN := r.idN)
    decreases |attrs|
  {
    if |attrs| > 0 {
      var rec1 := rec.(id := Some(attrs[0].value));
      ReadIdsFrame(attrs[1..], rec);
      ReadIdsFrame(attrs[1..], rec1);
      match TrailingDigits(attrs[0].value)
      case None =>
      case Some(d) => ReadIdsFrame(attrs[1..], rec1.(idN := DigitsValue(d)));
    }
  }

  /** An rdf:ID whose trailing digits are beyond int range: parseInt throws on it. */
  predicate IdTooLarge(a: Attr) {
    EqualsIgnoreCase(a.name, "rdf:ID") && TrailingDigits(a.value).Some?
    && DigitsValue(TrailingDigits(a.value).value) > MaxInt
  }

  /** The loop throws exactly when some rdf:ID carries a number beyond int range. */
  lemma {:induction false} ReadIdsThrown(attrs: seq<Attr>, rec: EntryRecord)
    ensures ReadIds(attrs, rec).thrown <==> exists k :: 0 <= k < |attrs| && IdTooLarge(attrs[k])
    decreases |attrs|
  {
    if |attrs| > 0 {
      var rec1 := rec.(id := Some(attrs[0].value));
      var m := TrailingDigits(attrs[0].value);
      ReadIdsThrown(attrs[1..], rec);
      ReadIdsThrown(attrs[1..], rec1);
      if m.Some? {
        ReadIdsThrown(attrs[1..], rec1.(idN := DigitsValue(m.value)));
      }
      if exists k :: 0 <= k < |attrs| && IdTooLarge(attrs[k]) {
        var k :| 0 <= k < |attrs| && IdTooLarge(attrs[k]);
        if k > 0 {
          assert attrs[1..][k - 1] == attrs[k];
        }
      }
      forall k | 0 <= k < |attrs| - 1 && IdTooLarge(attrs[1..][k])
        ensures IdTooLarge(attrs[k + 1])
      {
      }
    }
  }

  /** Without an rdf:ID attribute the loop leaves the fresh record as it was. */
  lemma {:induction false} ReadIdsNoId(attrs: seq<Attr>, rec: EntryRecord)
    requires forall k :: 0 <= k < |attrs| ==> !EqualsIgnoreCase(attrs[k].name, "rdf:ID")
    ensures ReadIds(attrs, rec) == IdRead(rec, false)
    decreases |attrs|
  {
    if |attrs| > 0 {
      assert !EqualsIgnoreCase(attrs[0].name, "rdf:ID");
      ReadIdsNoId(attrs[1..], rec);
    }
  }

  /** The rdf:resource values of two runs of attributes, one after the other. */
  lemma {:induction false} ResourcesAppend(a: seq<Attr>, b: seq<Attr>)
    ensures Resources(a + b) == Resources(a) + Resources(b)
    decreases |b|
  {
    if |b| > 0 {
      var b', x := b[..|b| - 1], b[|b| - 1];
      var last := if EqualsIgnoreCase(x.name, "rdf:resource") then [x.value] else [];
      assert (a + b)[..|a + b| - 1] == a + b';
      assert (a + b)[|a + b| - 1] == x;
      assert Resources(a + b) == Resources(a + b') + last;
      assert Resources(b) == Resources(b') + last;
      ResourcesAppend(a, b');
    } else {
      assert a + b == a;
    }
  }

  /** A value is a resource exactly when some rdf:resource attribute carries it. */
  lemma {:induction false} ResourcesMembers(attrs: seq<Attr>, v: string)
    ensures v in Resources(attrs) <==>
              exists k :: 0 <= k < |attrs| && EqualsIgnoreCase(attrs[k].name, "rdf:resource") && attrs[k].value == v
    decreases |attrs|
  {
    if |attrs| > 0 {
      var init := attrs[..|attrs| - 1];
      ResourcesMembers(init, v);
      forall k | 0 <= k < |init|
        ensures init[k] == attrs[k]
      {
      }
    }
  }

  // ---------------------------------------------------------------------------
  // Runs of events
  // ---------------------------------------------------------------------------

  /** The SAX events the handler receives. */
  datatype Event =
    | StartTag(qName: string, attrs: seq<Attr>)
    | Chars(text: string)
    | EndTag(qName: string)

  /**
   * One event's effect on the handler's state, for an entry end `finish`. The lemmas
   * below hold for every entry end, the handler's own (`Finisher`) among them.
   */
  function Apply(st: ParserState, ev: Event, finish: EntryRecord -> Ended): (r: ParserState)
    requires Consistent(st)
    ensures Consistent(r)
  {
    match ev
    case StartTag(q, a) => StartStep(st, TagOf(q), a).st
    case Chars(t) => CharsStep(st, t)
    case EndTag(q) => EndStep(st, TagOf(q), finish).st
  }

  /** The state after a run of events, in order. */
  function Run(st: ParserState, evs: seq<Event>, finish: EntryRecord -> Ended): (r: ParserState)
    requires Consistent(st)
    ensures Consistent(r)
    decreases |evs|
  {
    if |evs| == 0 then st else Run(Apply(st, evs[0], finish), evs[1..], finish)
  }

  /** The text of the characters events of a run, concatenated. */
  function CharsOf(evs: seq<Event>): string
    decreases |evs|
  {
    if |evs| == 0 then ""
    else if evs[0].Chars? then evs[0].text + CharsOf(evs[1..])
    else CharsOf(evs[1..])
  }

  /** The number of pgterms:etext start events of a run. */
  function EntryStarts(evs: seq<Event>): nat
    decreases |evs|
  {
    if |evs| == 0 then 0 else (if evs[0].StartTag? && TagOf(evs[0].qName) == Etext then 1 else 0) + EntryStarts(evs[1..])
  }

  lemma {:induction false} RunAppend(st: ParserState, a: seq<Event>, b: seq<Event>, finish: EntryRecord -> Ended)
    requires Consistent(st)
    ensures Run(st, a + b, finish) == Run(Run(st, a, finish), b, finish)
    decreases |a|
  {
    if |a| > 0 {
      var st1 := Apply(st, a[0], finish);
      assert (a + b)[0] == a[0];
      assert (a + b)[1..] == a[1..] + b;
      assert Run(st, a + b, finish) == Run(st1, a[1..] + b, finish);
      assert Run(st, a, finish) == Run(st1, a[1..], finish);
      RunAppend(st1, a[1..], b, finish);
    } else {
      assert a + b == b;
    }
  }

  /**
   * One event and the buffer and the counter: a start tag empties the buffer and
   * counts a pgterms:etext; characters append; an end tag changes neither.
   */
  lemma ApplyBuffer(st: ParserState, ev: Event, finish: EntryRecord -> Ended)
    requires Consistent(st)
    ensures var r := Apply(st, ev, finish);
            && r.charBuf == (if ev.StartTag? then "" else if ev.Chars? then st.charBuf + ev.text else st.charBuf)
            && r.entryCounter == st.entryCounter + (if ev.StartTag? && TagOf(ev.qName) == Etext then 1 else 0)
  {
    match ev
    case StartTag(q, a) =>
    case Chars(t) =>
    case EndTag(q) =>
      var tag := TagOf(q);
      var r := EndStep(st, tag, finish).st;
      if !st.entryFound {
      } else if tag == Etext {
      } else {
        assert r == st.(flags := r.flags, record := r.record);
      }
  }

  /** The first step of a run, with its effect on the buffer and the counter. */
  lemma RunStep(st: ParserState, evs: seq<Event>, finish: EntryRecord -> Ended) returns (st1: ParserState)
    requires Consistent(st) && |evs| > 0
    ensures Consistent(st1) && Run(st, evs, finish) == Run(st1, evs[1..], finish)
    ensures st1.charBuf == (if evs[0].StartTag? then "" else if evs[0].Chars? then st.charBuf + evs[0].text else st.charBuf)
    ensures st1.entryCounter == st.entryCounter + (if evs[0].StartTag? && TagOf(evs[0].qName) == Etext then 1 else 0)
  {
    st1 := Apply(st, evs[0], finish);
    ApplyBuffer(st, evs[0], finish);
  }

  /** Without a start tag, the buffer gathers the text of every characters event, in order. */
  lemma {:induction false} RunBuffer(st: ParserState, evs: seq<Event>, finish: EntryRecord -> Ended)
    requires Consistent(st)
    requires forall k :: 0 <= k < |evs| ==> !evs[k].StartTag?
    ensures Run(st, evs, finish).charBuf == st.charBuf + CharsOf(evs)
    decreases |evs|
  {
    if |evs| > 0 {
      var st1 := RunStep(st, evs, finish);
      RunBuffer(st1, evs[1..], finish);
      if evs[0].Chars? {
        ConcatAssoc(st.charBuf, evs[0].text, CharsOf(evs[1..]));
      }
    }
  }

  /** Concatenation is associative. */
  lemma ConcatAssoc(a: string, b: string, c: string)
    ensures (a + b) + c == a + (b + c)
  {
  }

  /**
   * What an end tag reads is the text of the characters events since the last start
   * tag: startElement empties the buffer, characters appends, endElement only reads.
   */
  lemma BufferSinceLastStart(st: ParserState, pre: seq<Event>, q: string, attrs: seq<Attr>, post: seq<Event>,
                             finish: EntryRecord -> Ended)
    requires Consistent(st)
    requires forall k :: 0 <= k < |post| ==> !post[k].StartTag?
    ensures Run(st, pre + [StartTag(q, attrs)] + post, finish).charBuf == CharsOf(post)
  {
    var mid := Run(st, pre + [StartTag(q, attrs)], finish);
    RunAppend(st, pre + [StartTag(q, attrs)], post, finish);
    RunAppend(st, pre, [StartTag(q, attrs)], finish);
    assert mid.charBuf == "";
    RunBuffer(mid, post, finish);
  }

  /** The entry counter counts the pgterms:etext start tags. */
  lemma {:induction false} RunCountsEntries(st: ParserState, evs: seq<Event>, finish: EntryRecord -> Ended)
    requires Consistent(st)
    ensures Run(st, evs, finish).entryCounter == st.entryCounter + EntryStarts(evs)
    decreases |evs|
  {
    if |evs| > 0 {
      var st1 := RunStep(st, evs, finish);
      RunCountsEntries(st1, evs[1..], finish);
    }
  }

  /**
   * Outside an entry, until the next pgterms:etext start, the handler changes nothing
   * but its buffer: no flag, no record, no counter.
   */
  lemma {:induction false} RunOutsideEntry(st: ParserState, evs: seq<Event>, finish: EntryRecord -> Ended)
    requires Consistent(st) && !st.entryFound
    requires forall k :: 0 <= k < |evs| ==> !(evs[k].StartTag? && TagOf(evs[k].qName) == Etext)
    ensures Run(st, evs, finish) == st.(charBuf := Run(st, evs, finish).charBuf)
    decreases |evs|
  {
    if |evs| > 0 {
      var st1 := Apply(st, evs[0], finish);
      assert st1 == st.(charBuf := st1.charBuf);
      RunOutsideEntry(st1, evs[1..], finish);
    }
  }

  // ---------------------------------------------------------------------------
  // Single steps inside an entry
  // ---------------------------------------------------------------------------

  /**
   * A pgterms:etext start opens an entry and counts it, with a fresh record whose
   * lists are all empty, whether or not the id has digits; only the id and its
   * number can differ from the empty record.
   */
  lemma EntryStartFresh(st: ParserState, attrs: seq<Attr>)
    requires Consistent(st)
    ensures var r := StartStep(st, Etext, attrs).st;
              r.entryFound && r.entryCounter == st.entryCounter + 1 && r.charBuf == "" && r.flags == st.flags &&
              r.record.Some? && r.record.value == EmptyRecord.(id := r.record.value.id, idN := r.record.value.idN)
  {
    ReadIdsFrame(attrs, EmptyRecord);
  }

  /** Each context flag is raised only by its own start tag and lowered only by its own end tag. */
  lemma FlagsOwnTags(f: Flags, tag: Tag)
    ensures FlagsStart(f, tag).languageTag == (f.languageTag || tag == Language)
    ensures FlagsStart(f, tag).subjectTag == (f.subjectTag || tag == LCSH)
    ensures FlagsStart(f, tag).subjectLCCTag == (f.subjectLCCTag || tag == LCC)
    ensures FlagsStart(f, tag).projGCategory == (f.projGCategory || tag == DcType)
    ensures FlagsStart(f, tag).dcCreated == (f.dcCreated || tag == W3CDTF)
    ensures FlagsEnd(f, tag).languageTag == (f.languageTag && tag != Language)
    ensures FlagsEnd(f, tag).subjectTag == (f.subjectTag && tag != LCSH)
    ensures FlagsEnd(f, tag).subjectLCCTag == (f.subjectLCCTag && tag != LCC)
    ensures FlagsEnd(f, tag).projGCategory == (f.projGCategory && tag != DcType)
    ensures FlagsEnd(f, tag).dcCreated == (f.dcCreated && tag != W3CDTF)
  {
  }

  /**
   * The start tags change only the flags, the ISO 639-2 marker (under dc:language
   * only) and the rights (the rdf:resource values of dc:rights).
   */
  lemma RecordStartFields(rec: EntryRecord, f: Flags, tag: Tag, attrs: seq<Attr>)
    ensures var r := RecordStart(rec, f, tag, attrs);
              r.languageISO == (if tag == ISO639 && f.languageTag then Some("ISO639-2") else rec.languageISO) &&
              r.rights == (if tag == Rights then rec.rights + Resources(attrs) else rec.rights) &&
              r == rec.(languageISO := r.languageISO, rights := r.rights)
  {
  }

  /**
   * rdf:value's text lands in exactly one field, that of the first flag set in the
   * order dc:language, LCSH (appended), LCC, dc:type, W3CDTF; with no flag set it is
   * dropped.
   */
  lemma RouteValuePriority(rec: EntryRecord, f: Flags, text: string)
    ensures f.languageTag ==> RouteValue(rec, f, text) == rec.(languageCode := Some(text))
    ensures !f.languageTag && f.subjectTag ==>
              RouteValue(rec, f, text) == rec.(subjectHeadingsLCC := rec.subjectHeadingsLCC + [text])
    ensures !f.languageTag && !f.subjectTag && f.subjectLCCTag ==>
              RouteValue(rec, f, text) == rec.(classificationLCC := Some(text))
    ensures !f.languageTag && !f.subjectTag && !f.subjectLCCTag && f.projGCategory ==>
              RouteValue(rec, f, text) == rec.(projGCategory := Some(text))
    ensures !f.languageTag && !f.subjectTag && !f.subjectLCCTag && !f.projGCategory && f.dcCreated ==>
              RouteValue(rec, f, text) == rec.(createdW3CDTF := Some(text))
    ensures f == NoFlags ==> RouteValue(rec, f, text) == rec
  {
  }

  /** The state after the three start tags of the catalog's usual language element. */
  function LanguageOpened(st: ParserState, lang: string, iso: string, val: string, finish: EntryRecord -> Ended): ParserState
    requires Consistent(st)
  {
    Apply(Apply(Apply(st, StartTag(lang, []), finish), StartTag(iso, []), finish), StartTag(val, []), finish)
  }

  /** The state after the text and the three end tags of the catalog's usual language element. */
  function LanguageClosed(st: ParserState, lang: string, iso: string, val: string, text: string, finish: EntryRecord -> Ended): ParserState
    requires Consistent(st)
  {
    Apply(Apply(Apply(Apply(st, Chars(text), finish), EndTag(val), finish), EndTag(iso), finish), EndTag(lang), finish)
  }

  /**
   * dc:language, dcterms:ISO639-2 and rdf:value opened inside an entry: the language
   * flag is raised and the ISO 639-2 marker set.
   */
  lemma LanguageOpen(st: ParserState, lang: string, iso: string, val: string, finish: EntryRecord -> Ended)
    requires Consistent(st) && st.entryFound && st.flags == NoFlags
    requires TagOf(lang) == Language && TagOf(iso) == ISO639 && TagOf(val) == Value
    ensures LanguageOpened(st, lang, iso, val, finish)
            == st.(charBuf := "", flags := NoFlags.(languageTag := true),
                   record := Some(st.record.value.(languageISO := Some("ISO639-2"))))
  {
    var s1 := Apply(st, StartTag(lang, []), finish);
    assert s1 == st.(charBuf := "", flags := NoFlags.(languageTag := true));
    var s2 := Apply(s1, StartTag(iso, []), finish);
    assert s2 == s1.(record := Some(st.record.value.(languageISO := Some("ISO639-2"))));
    assert Apply(s2, StartTag(val, []), finish) == s2;
  }

  /**
   * The value's text and the three end tags: the text becomes the language code and
   * the language flag is lowered again.
   */
  lemma LanguageClose(st: ParserState, lang: string, iso: string, val: string, text: string, finish: EntryRecord -> Ended)
    requires Consistent(st) && st.entryFound && st.flags == NoFlags.(languageTag := true)
    requires TagOf(lang) == Language && TagOf(iso) == ISO639 && TagOf(val) == Value
    ensures LanguageClosed(st, lang, iso, val, text, finish)
            == st.(charBuf := st.charBuf + text, flags := NoFlags,
                   record := Some(st.record.value.(languageCode := Some(st.charBuf + text))))
  {
    var s1 := Apply(st, Chars(text), finish);
    assert s1 == st.(charBuf := st.charBuf + text);
    var s2 := Apply(s1, EndTag(val), finish);
    assert s2 == s1.(record := Some(st.record.value.(languageCode := Some(st.charBuf + text))));
    var s3 := Apply(s2, EndTag(iso), finish);
    assert s3 == s2;
    assert Apply(s3, EndTag(lang), finish) == s2.(flags := NoFlags);
  }

  // ---------------------------------------------------------------------------
  // The end of an entry
  // ---------------------------------------------------------------------------

  /** The catalog's language and publisher win over the descriptor's; rights and titles collect both. */
  lemma MergeOnlyIfUnset(rec: EntryRecord, d: Descriptor)
    ensures Merge(rec, d).languageCode == (if rec.languageCode.Some? then rec.languageCode else d.language)
    ensures Merge(rec, d).publisher == (if rec.publisher.Some? then rec.publisher else d.publisher)
    ensures Merge(rec, d).rights == rec.rights + ListOf(d.rights)
    ensures Merge(rec, d).title == rec.title + ListOf(d.title)
    ensures Merge(rec, d).(languageCode := rec.languageCode, publisher := rec.publisher,
                           rights := rec.rights, title := rec.title) == rec
  {
  }

  /**
   * How an entry ends, case by case: skipped when both files exist; the escaping
   * error of the format loop; early return without an HTML edition (whatever other
   * edition there is); no converted body; or converted, with the descriptor's meta
   * information merged and the `<pre>` paragraphs added to the rights.
   */
  lemma FinishEntryOutcomes(rec: EntryRecord, ebookURLStr: string, w: World)
    ensures var e := FinishEntry(rec, ebookURLStr, w);
            var fileID := NatToString(rec.idN);
            var d := ReadDescriptor(ebookURLStr + fileID + ".rdf", w);
            && (e.outcome == Skipped <==> w.filesExist)
            && (e.outcome == DescriptorThrew <==> !w.filesExist && d.formats.thrown)
            && (e.outcome == NotHtml <==> !w.filesExist && !d.formats.thrown && HTML !in d.formats.hm)
            && (e.outcome == NoBody <==> !w.filesExist && !d.formats.thrown && HTML in d.formats.hm &&
                                         HtmlBody(d.formats.hm[HTML].url, w).None?)
            && ((e.outcome == Skipped || e.outcome == DescriptorThrew) ==> e.rec == rec)
            && (e.outcome == NotHtml ==> e.rec == Merge(rec, d))
            && (e.outcome.Converted? ==>
                  e.outcome.fileID == fileID &&
                  e.rec == Merge(rec, d).(rights := Merge(rec, d).rights + HtmlParas(d.formats.hm[HTML].url, w)))
  {
  }

  /** The converted body's `text` element joins the TEI document only when there is exactly one. */
  lemma WithTextAppends(tei: TeiDocument, body: Node)
    requires tei.root.Element?
    ensures var texts := ElementsNamed(body, "text");
            var r := WithText(tei, body).root;
            r.Element? && r.name == tei.root.name && r.attrs == tei.root.attrs &&
            r.children == tei.root.children + (if |texts| == 1 then [texts[0]] else [])
  {
  }
}
