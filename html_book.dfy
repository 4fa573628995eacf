/**
 * HTMLBook: the HTML edition of one book. Loading it reads the fetched text line by
 * line, cuts every `<pre>` block out of it (leaving a line break in its place) and
 * collects the non-empty paragraphs of each block, which the catalog parser later adds
 * to the licence of the entry.
 *
 * The block pattern is `(<pre>)(.*?)(</pre>)`, case-insensitive, with `.` matching line
 * breaks, searched with `Matcher.find(pos)` from the end of the previous block.
 */
module HtmlBook {
  import opened Wrappers
  import opened Strings
  import opened XmlTree

  // ---------------------------------------------------------------------------
  // Reading the text line by line
  // ---------------------------------------------------------------------------

  predicate IsLineEnd(c: char) {
    c == '\n' || c == '\r'
  }

  /**
   * BufferedReader.readLine in a loop, each line appended with '\n': "\r\n", "\r" and
   * "\n" all end a line, and a last line without an end still gets one.
   */
  function ReadLines(raw: string): (text: string)
    ensures |raw| > 0 <==> |text| > 0
    decreases |raw|
  {
    if |raw| == 0 then ""
    else if raw[0] == '\r' && |raw| > 1 && raw[1] == '\n' then "\n" + ReadLines(raw[2..])
    else if IsLineEnd(raw[0]) then "\n" + ReadLines(raw[1..])
    else if |raw| == 1 then [raw[0], '\n']
    else [raw[0]] + ReadLines(raw[1..])
  }

  /** The text read holds no carriage return, and ends with a line break unless it is empty. */
  lemma {:induction false} ReadLinesShape(raw: string)
    ensures forall k :: 0 <= k < |ReadLines(raw)| ==> ReadLines(raw)[k] != '\r'
    ensures |raw| > 0 ==> ReadLines(raw)[|ReadLines(raw)| - 1] == '\n'
    decreases |raw|
  {
    if |raw| == 0 {
    } else if raw[0] == '\r' && |raw| > 1 && raw[1] == '\n' {
      ReadLinesShape(raw[2..]);
    } else if IsLineEnd(raw[0]) {
      ReadLinesShape(raw[1..]);
    } else if |raw| == 1 {
    } else {
      ReadLinesShape(raw[1..]);
    }
  }

  /** Text read line by line reads back unchanged. */
  lemma {:induction false} ReadLinesIdempotent(text: string)
    requires forall k :: 0 <= k < |text| ==> text[k] != '\r'
    requires |text| > 0 ==> text[|text| - 1] == '\n'
    ensures ReadLines(text) == text
    decreases |text|
  {
    if |text| == 0 {
    } else if text[0] == '\n' {
      ReadLinesIdempotent(text[1..]);
      assert text == "\n" + text[1..];
    } else {
      assert |text| > 1;
      ReadLinesIdempotent(text[1..]);
      assert text == [text[0]] + text[1..];
    }
  }

  // ---------------------------------------------------------------------------
  // The <pre> blocks
  // ---------------------------------------------------------------------------

  const Open := "<pre>"
  const Close := "</pre>"

  /** The lower-case pattern `pat` occurs at `i`, ignoring case. */
  predicate OccursAtCI(s: string, i: nat, pat: string) {
    i + |pat| <= |s| && EqualsIgnoreCase(s[i..i + |pat|], pat)
  }

  /** The first index at or after `from` where `pat` occurs, ignoring case. */
  function FindCI(s: string, from: nat, pat: string): (r: Option<nat>)
    requires from <= |s|
    ensures r.Some? ==> from <= r.value && OccursAtCI(s, r.value, pat)
    ensures r.Some? ==> forall k: nat :: from <= k < r.value ==> !OccursAtCI(s, k, pat)
    ensures r.None? ==> forall k: nat :: from <= k ==> !OccursAtCI(s, k, pat)
    decreases |s| - from
  {
    if OccursAtCI(s, from, pat) then Some(from)
    else if from == |s| then None
    else FindCI(s, from + 1, pat)
  }

  /** One match of the block pattern: where it starts, where its content ends, and where it ends. */
  datatype Block = Block(start: nat, contentEnd: nat, end: nat)

  /**
   * Matcher.find(pos): the first `<pre>` at or after `pos`, closed by the first
   * `</pre>` after it; no match when no `</pre>` follows that `<pre>`.
   */
  function NextBlock(s: string, pos: nat): (b: Option<Block>)
    requires pos <= |s|
    ensures b.Some? ==> pos <= b.value.start && b.value.start + |Open| <= b.value.contentEnd
                        && b.value.end == b.value.contentEnd + |Close| <= |s|
    ensures b.Some? ==> OccursAtCI(s, b.value.start, Open) && OccursAtCI(s, b.value.contentEnd, Close)
    ensures b.Some? ==> forall k: nat :: pos <= k < b.value.start ==> !OccursAtCI(s, k, Open)
    ensures b.Some? ==> forall k: nat :: b.value.start + |Open| <= k < b.value.contentEnd ==> !OccursAtCI(s, k, Close)
  {
    match FindCI(s, pos, Open)
    case None => None
    case Some(i) =>
      match FindCI(s, i + |Open|, Close)
      case None => None
      case Some(j) => Some(Block(i, j, j + |Close|))
  }

  /** The text with every block from `pos` on replaced by a line break. */
  function Cleaned(s: string, pos: nat): string
    requires pos <= |s|
    decreases |s| - pos
  {
    match NextBlock(s, pos)
    case None => s[pos..]
    case Some(b) => s[pos..b.start] + "\n" + Cleaned(s, b.end)
  }

  /** The trimmed, non-empty pieces among `pieces`, in order. */
  function NonEmptyTrimmed(pieces: seq<string>): (r: seq<string>)
    ensures |r| <= |pieces|
  {
    if |pieces| == 0 then []
    else
      var tmp := Trim(pieces[|pieces| - 1]);
      NonEmptyTrimmed(pieces[..|pieces| - 1]) + (if |tmp| > 0 then [tmp] else [])
  }

  lemma NonEmptyTrimmedSnoc(pieces: seq<string>, k: nat)
    requires k < |pieces|
    ensures NonEmptyTrimmed(pieces[..k + 1])
         == NonEmptyTrimmed(pieces[..k]) + (if |Trim(pieces[k])| > 0 then [Trim(pieces[k])] else [])
  {
    assert pieces[..k + 1][..k] == pieces[..k];
  }

  /** A paragraph as collected: non-empty, trimmed at both ends, and without a blank line. */
  predicate IsParagraph(p: string) {
    |p| > 0 && !IsTrimmable(p[0]) && !IsTrimmable(p[|p| - 1]) && !Contains(p, "\n\n")
  }

  /** The paragraphs of one block: its trimmed content split at blank lines, each trimmed, empty ones dropped. */
  function ParasOf(content: string): (ps: seq<string>)
    ensures forall k :: 0 <= k < |ps| ==> IsParagraph(ps[k])
  {
    var pieces := Split(Trim(content), "\n\n");
    NonEmptyTrimmedShape(pieces);
    NonEmptyTrimmed(pieces)
  }

  /** The paragraphs of every block from `pos` on, block after block. */
  function PreParas(s: string, pos: nat): seq<string>
    requires pos <= |s|
    decreases |s| - pos
  {
    match NextBlock(s, pos)
    case None => []
    case Some(b) => ParasOf(s[b.start + |Open|..b.contentEnd]) + PreParas(s, b.end)
  }

  /** One block from `pos` on: the gap before it, a line break, then the rest; its paragraphs, then the rest's. */
  lemma BlockStep(s: string, pos: nat, b: Block)
    requires pos <= |s| && NextBlock(s, pos) == Some(b)
    ensures Cleaned(s, pos) == s[pos..b.start] + "\n" + Cleaned(s, b.end)
    ensures PreParas(s, pos) == ParasOf(s[b.start + |Open|..b.contentEnd]) + PreParas(s, b.end)
  {
    CleanedStep(s, pos, b);
    PreParasStep(s, pos, b);
  }

  lemma CleanedStep(s: string, pos: nat, b: Block)
    requires pos <= |s| && NextBlock(s, pos) == Some(b)
    ensures Cleaned(s, pos) == s[pos..b.start] + "\n" + Cleaned(s, b.end)
  {
  }

  lemma PreParasStep(s: string, pos: nat, b: Block)
    requires pos <= |s| && NextBlock(s, pos) == Some(b)
    ensures PreParas(s, pos) == ParasOf(s[b.start + |Open|..b.contentEnd]) + PreParas(s, b.end)
  {
  }

  // ---------------------------------------------------------------------------
  // Properties
  // ---------------------------------------------------------------------------

  /** Text without a complete block is left as it is and yields no paragraph. */
  lemma NoBlockUnchanged(s: string)
    requires NextBlock(s, 0).None?
    ensures Cleaned(s, 0) == s && PreParas(s, 0) == []
  {
  }

  /** Every paragraph collected is non-empty, trimmed at both ends, and holds no blank line. */
  lemma {:induction false} NonEmptyTrimmedShape(pieces: seq<string>)
    requires forall k :: 0 <= k < |pieces| ==> !Contains(pieces[k], "\n\n")
    ensures forall k :: 0 <= k < |NonEmptyTrimmed(pieces)| ==> IsParagraph(NonEmptyTrimmed(pieces)[k])
  {
    if |pieces| > 0 {
      NonEmptyTrimmedShape(pieces[..|pieces| - 1]);
      TrimShape(pieces[|pieces| - 1]);
      TrimKeepsAbsence(pieces[|pieces| - 1], "\n\n");
    }
  }

  /** Keeping the non-empty trimmed pieces loses only white space. */
  lemma {:induction false} UnspacedNonEmptyTrimmed(pieces: seq<string>)
    ensures UnspacedAll(NonEmptyTrimmed(pieces)) == UnspacedAll(pieces)
    decreases |pieces|
  {
    if |pieces| > 0 {
      var init := pieces[..|pieces| - 1];
      var last := pieces[|pieces| - 1];
      UnspacedNonEmptyTrimmed(init);
      UnspacedTrim(last);
      var tmp := Trim(last);
      UnspacedAllAppend(init, [last]);
      UnspacedAllAppend(NonEmptyTrimmed(init), if |tmp| > 0 then [tmp] else []);
      assert pieces == init + [last];
      assert UnspacedAll([last]) == Unspaced(last) + UnspacedAll([]);
      assert UnspacedAll([tmp]) == Unspaced(tmp) + UnspacedAll([]);
    }
  }

  /** The paragraphs of a block hold exactly its content, up to white space. */
  lemma ParasRebuild(content: string)
    ensures UnspacedAll(ParasOf(content)) == Unspaced(content)
  {
    var pieces := Split(Trim(content), "\n\n");
    UnspacedNonEmptyTrimmed(pieces);
    assert Unspaced("\n\n") == "";
    UnspacedSplit(Trim(content), "\n\n");
    UnspacedTrim(content);
  }

  /** The content between the markers of every block from `pos` on, block after block. */
  function BlockContents(s: string, pos: nat): (cs: seq<string>)
    requires pos <= |s|
    ensures NextBlock(s, pos).None? <==> cs == []
    decreases |s| - pos
  {
    match NextBlock(s, pos)
    case None => []
    case Some(b) => [s[b.start + |Open|..b.contentEnd]] + BlockContents(s, b.end)
  }

  /**
   * The paragraphs collected from a text hold exactly what its blocks enclose, up to
   * white space; with `BlockStep`, the cleaned text and the paragraphs together give
   * back the text up to white space inside the markers.
   */
  lemma {:induction false} PreParasRebuild(s: string, pos: nat)
    requires pos <= |s|
    ensures UnspacedAll(PreParas(s, pos)) == UnspacedAll(BlockContents(s, pos))
    decreases |s| - pos
  {
    match NextBlock(s, pos)
    case None =>
    case Some(b) =>
      var content := s[b.start + |Open|..b.contentEnd];
      PreParasStep(s, pos, b);
      var rest := BlockContents(s, b.end);
      assert BlockContents(s, pos) == [content] + rest;
      PreParasRebuild(s, b.end);
      ParasRebuild(content);
      UnspacedAllAppend(ParasOf(content), PreParas(s, b.end));
      assert UnspacedAll([content] + rest) == Unspaced(content) + UnspacedAll(rest);
  }

  /** Every paragraph collected from a text is non-empty, trimmed, and holds no blank line. */
  lemma {:induction false} PreParasShape(s: string, pos: nat)
    requires pos <= |s|
    ensures forall k :: 0 <= k < |PreParas(s, pos)| ==> IsParagraph(PreParas(s, pos)[k])
    decreases |s| - pos
  {
    match NextBlock(s, pos)
    case None =>
    case Some(b) =>
      PreParasShape(s, b.end);
  }

  /** A pattern without line breaks does not occur across the line break of `a + "\n" + c`. */
  lemma NoStraddle(a: string, c: string, i: nat, pat: string)
    requires forall k :: 0 <= k < |pat| ==> ToLower(pat[k]) != '\n'
    ensures i <= |a| < i + |pat| ==> !OccursAtCI(a + "\n" + c, i, pat)
  {
    var x := a + "\n" + c;
    if i <= |a| < i + |pat| && i + |pat| <= |x| {
      assert x[i..i + |pat|][|a| - i] == '\n';
      assert ToLower(pat[|a| - i]) != '\n';
    }
  }

  /** Past the line break of `a + "\n" + c`, the occurrences are those of `c`. */
  lemma ShiftOccurrence(a: string, c: string, j: nat, pat: string)
    requires j >= |a| + 1
    ensures OccursAtCI(a + "\n" + c, j, pat) <==> OccursAtCI(c, j - |a| - 1, pat)
  {
    var x := a + "\n" + c;
    if j + |pat| <= |x| {
      assert x[j..j + |pat|] == c[j - |a| - 1..j - |a| - 1 + |pat|];
    }
  }

  /** A pattern without line breaks that occurs in `a + "\n" + c` occurs in `a` or in `c`. */
  lemma SplitOccurrence(a: string, c: string, i: nat, pat: string)
    requires forall k :: 0 <= k < |pat| ==> ToLower(pat[k]) != '\n'
    requires OccursAtCI(a + "\n" + c, i, pat)
    ensures (i + |pat| <= |a| && OccursAtCI(a, i, pat))
         || (i >= |a| + 1 && OccursAtCI(c, i - |a| - 1, pat))
  {
    var x := a + "\n" + c;
    NoStraddle(a, c, i, pat);
    if i + |pat| <= |a| {
      assert x[i..i + |pat|] == a[i..i + |pat|];
    } else {
      ShiftOccurrence(a, c, i, pat);
    }
  }

  /** The text from `pos` on holds no `<pre>` that some later `</pre>` closes. */
  ghost predicate NoBlockIn(x: string) {
    forall i: nat, j: nat :: OccursAtCI(x, i, Open) && i + |Open| <= j ==> !OccursAtCI(x, j, Close)
  }

  /** Occurrences in `s[pos..]` are occurrences in `s`, shifted by `pos`. */
  lemma SuffixOccurrence(s: string, pos: nat, i: nat, pat: string)
    requires pos <= |s|
    ensures OccursAtCI(s[pos..], i, pat) <==> OccursAtCI(s, pos + i, pat)
  {
    if pos + i + |pat| <= |s| {
      assert s[pos..][i..i + |pat|] == s[pos + i..pos + i + |pat|];
    }
  }

  /** When find fails from `pos`, no `<pre>` in the rest of the text is closed by a later `</pre>`. */
  lemma NoBlockWhenNoMatch(s: string, pos: nat)
    requires pos <= |s| && NextBlock(s, pos).None?
    ensures NoBlockIn(s[pos..])
  {
    var x := s[pos..];
    match FindCI(s, pos, Open)
    case None =>
      forall i: nat ensures !OccursAtCI(x, i, Open) {
        SuffixOccurrence(s, pos, i, Open);
      }
    case Some(f) =>
      forall i: nat | i < f - pos ensures !OccursAtCI(x, i, Open) {
        SuffixOccurrence(s, pos, i, Open);
      }
      forall j: nat | j >= f - pos + |Open| ensures !OccursAtCI(x, j, Close) {
        SuffixOccurrence(s, pos, j, Close);
      }
  }

  /** Occurrences in `s[lo..hi]` are occurrences in `s`, shifted by `lo`. */
  lemma InfixOccurrenceCI(s: string, lo: nat, hi: nat, i: nat, pat: string)
    requires lo <= hi <= |s|
    ensures OccursAtCI(s[lo..hi], i, pat) ==> OccursAtCI(s, lo + i, pat)
  {
    if i + |pat| <= hi - lo {
      var t := s[lo..hi];
      assert forall j :: lo + i <= j < lo + i + |pat| ==> t[j - lo] == s[j];
      assert t[i..i + |pat|] == s[lo + i..lo + i + |pat|];
    }
  }

  /** The text before a block holds no `<pre>`. */
  lemma GapHasNoOpen(s: string, pos: nat, b: Block)
    requires pos <= |s| && NextBlock(s, pos) == Some(b)
    ensures forall i: nat :: !OccursAtCI(s[pos..b.start], i, Open)
  {
    forall i: nat ensures !OccursAtCI(s[pos..b.start], i, Open) {
      InfixOccurrenceCI(s, pos, b.start, i, Open);
    }
  }

  /** Cleaning leaves no block behind. */
  lemma {:induction false} CleanedHasNoBlock(s: string, pos: nat)
    requires pos <= |s|
    ensures NoBlockIn(Cleaned(s, pos))
    decreases |s| - pos
  {
    match NextBlock(s, pos)
    case None =>
      NoBlockWhenNoMatch(s, pos);
    case Some(b) =>
      var gap := s[pos..b.start];
      var rest := Cleaned(s, b.end);
      CleanedHasNoBlock(s, b.end);
      GapHasNoOpen(s, pos, b);
      var x := gap + "\n" + rest;
      forall i: nat, j: nat | OccursAtCI(x, i, Open) && i + |Open| <= j
        ensures !OccursAtCI(x, j, Close)
      {
        SplitOccurrence(gap, rest, i, Open);
        ShiftOccurrence(gap, rest, j, Close);
      }
  }

  /** Text with no block left is not found to hold one. */
  lemma NoBlockNoMatch(x: string)
    requires NoBlockIn(x)
    ensures NextBlock(x, 0).None?
  {
  }

  /** Cleaning is idempotent: a cleaned text is cleaned to itself and yields no further paragraph. */
  lemma CleanedIdempotent(s: string)
    ensures Cleaned(Cleaned(s, 0), 0) == Cleaned(s, 0)
    ensures PreParas(Cleaned(s, 0), 0) == []
  {
    CleanedHasNoBlock(s, 0);
    NoBlockNoMatch(Cleaned(s, 0));
  }

  // ---------------------------------------------------------------------------
  // The book as an object
  // ---------------------------------------------------------------------------

  class HTMLBook {
    /** The paragraphs of the `<pre>` blocks, in the order found. */
    var preParagraphs: seq<string>
    /** The character set to read and write the text in; unset when none was given. */
    var encoding: Option<string>
    /** The address of the HTML edition; unset when java.net.URL rejected it. */
    var docURL: Option<string>
    var idN: string
    /** The folder the cleaned text is written to. */
    var outputFolder: string
    /** The cleaned text written next to the TEI file, once loaded. */
    var savedHTML: Option<string>
    /** The document element of the TEI conversion of the saved text, once parsed. */
    var mydoc: Option<Node>

    /**
     * `urlAccepted` is whether java.net.URL parses `someurl`; the URL grammar is not
     * part of this model.
     */
    constructor (someurl: string, urlAccepted: bool, outputFolder: string, id: nat, enc: string)
      ensures preParagraphs == [] && savedHTML == None && mydoc == None
      ensures this.outputFolder == outputFolder
      ensures encoding == (if |enc| > 0 then Some(enc) else None)
      ensures docURL == (if urlAccepted then Some(someurl) else None)
      ensures idN == NatToString(id)
    {
      preParagraphs := [];
      this.outputFolder := outputFolder;
      encoding := if |enc| > 0 then Some(enc) else None;
      docURL := if urlAccepted then Some(someurl) else None;
      idN := NatToString(id);
      savedHTML := None;
      mydoc := None;
    }

    /** The inner loop of loadHTML: the paragraphs of one block's content, added in order. */
    method AddParagraphsOf(content: string)
      modifies this
      ensures preParagraphs == old(preParagraphs) + ParasOf(content)
      ensures docURL == old(docURL) && encoding == old(encoding) && idN == old(idN) && outputFolder == old(outputFolder)
      ensures savedHTML == old(savedHTML) && mydoc == old(mydoc)
    {
      var parts := Split(Trim(content), "\n\n");
      var added: seq<string> := [];
      for k := 0 to |parts|
        invariant added == NonEmptyTrimmed(parts[..k])
        invariant preParagraphs == old(preParagraphs) && docURL == old(docURL) && encoding == old(encoding)
        invariant idN == old(idN) && outputFolder == old(outputFolder) && savedHTML == old(savedHTML) && mydoc == old(mydoc)
      {
        NonEmptyTrimmedSnoc(parts, k);
        var tmp := Trim(parts[k]);
        if |tmp| > 0 {
          added := added + [tmp];
        }
      }
      assert parts[..|parts|] == parts;
      preParagraphs := preParagraphs + added;
    }

    /**
     * loadHTML. `fetched` is the text the connection delivered, decoded in the book's
     * encoding; `converted` is the document the external HTML-to-TEI conversion left
     * behind, if it could be parsed.
     */
    method LoadHTML(fetched: string, converted: Option<Node>)
      modifies this
      ensures old(docURL).None? ==> preParagraphs == old(preParagraphs) && savedHTML == old(savedHTML) && mydoc == old(mydoc)
      ensures old(docURL).Some? ==>
                var clean := ReadLines(fetched);
                preParagraphs == old(preParagraphs) + PreParas(clean, 0)
                && savedHTML == Some(Cleaned(clean, 0))
                && mydoc == converted
      ensures docURL == old(docURL) && encoding == old(encoding) && idN == old(idN) && outputFolder == old(outputFolder)
    {
      if docURL.None? {
        return;
      }
      var clean := ReadLines(fetched);
      var strb := "";
      var pos := 0;
      var m := NextBlock(clean, pos);
      ghost var paras0 := preParagraphs;
      while m.Some?
        invariant pos <= |clean| && m == NextBlock(clean, pos)
        invariant strb + Cleaned(clean, pos) == Cleaned(clean, 0)
        invariant preParagraphs + PreParas(clean, pos) == paras0 + PreParas(clean, 0)
        invariant docURL == old(docURL) && encoding == old(encoding) && idN == old(idN) && outputFolder == old(outputFolder)
        invariant savedHTML == old(savedHTML) && mydoc == old(mydoc)
        decreases |clean| - pos
      {
        var b := m.value;
        var gap, content := clean[pos..b.start], clean[b.start + |Open|..b.contentEnd];
        BlockStep(clean, pos, b);
        Assoc4(strb, gap, "\n", Cleaned(clean, b.end));
        strb := strb + gap + "\n";
        pos := b.end;
        ghost var before := preParagraphs;
        AddParagraphsOf(content);
        Assoc3(before, ParasOf(content), PreParas(clean, pos));
        m := NextBlock(clean, pos);
      }
      strb := strb + clean[pos..];
      savedHTML := Some(strb);
      mydoc := converted;
    }
  }
}
