/** The PDF field extractor (`MyBot.__extract_data_from_pdf`).

    Each field is taken by a pattern of the form `Label(.+)Term` applied
    to the text of one page: the first match's group. The matcher is
    written out here rather than delegated to a regular-expression engine.
    A match starts where the label occurs; the group is one or more
    characters other than a newline (`.` does not cross lines); it is
    greedy, so for a given start it runs to the LAST occurrence of the
    terminator on that line; and the leftmost start that admits any match
    wins. */
module PdfFields {
  import opened Wrappers
  import opened Text

  const TitleLabel: string := "Name of this Investment: "
  const TitleTerm: string := "2."
  const UiiLabel: string := "Unique Investment Identifier (UII): "
  const UiiTerm: string := "Section B"

  /** The key of the page text that both patterns are applied to. */
  const FieldsPage: int := 1

  /** The record one business-case PDF yields. */
  datatype DocumentRecord = DocumentRecord(uii: string, title: string)

  datatype Field = Title | Uii

  /** `PageMissing` is the KeyError of `text[1]`; `FieldNotFound` is the
      IndexError of `findall(...)[0]` on an empty list. */
  datatype ExtractError = PageMissing | FieldNotFound(field: Field)

  /** `Label(.+)Term` matches `text` with the label at `i` and the
      terminator at `j`; the group is `text[i + |tag|..j]`. */
  predicate MatchAt(text: string, tag: string, term: string, i: int, j: int)
  {
    OccursAt(text, tag, i) && i + |tag| < j && OccursAt(text, term, j)
    && '\n' !in text[i + |tag|..j]
  }

  /** The match a left-to-right search with a greedy group reports first:
      no match starts further left, and none with this start ends later. */
  ghost predicate FirstMatch(text: string, tag: string, term: string, i: int, j: int)
  {
    MatchAt(text, tag, term, i, j)
    && (forall i', j' :: i' < i ==> !MatchAt(text, tag, term, i', j'))
    && (forall j' :: j < j' ==> !MatchAt(text, tag, term, i, j'))
  }

  /** `v` is the group of the first match of `Label(.+)Term` in `text`. */
  ghost predicate Captured(text: string, tag: string, term: string, v: string)
  {
    exists i, j :: FirstMatch(text, tag, term, i, j) && v == text[i + |tag|..j]
  }

  /** The last terminator occurrence starting in `[lo, hi]`. */
  function LastTermAt(text: string, term: string, lo: int, hi: int): (r: Option<int>)
    ensures r.Some? ==> lo <= r.value <= hi && OccursAt(text, term, r.value)
    ensures r.Some? ==> forall j :: r.value < j <= hi ==> !OccursAt(text, term, j)
    ensures r.None? ==> forall j :: lo <= j <= hi ==> !OccursAt(text, term, j)
    decreases hi - lo
  {
    if hi < lo then None
    else if OccursAt(text, term, hi) then Some(hi)
    else LastTermAt(text, term, lo, hi - 1)
  }

  /** With the label at `i`, the matches are exactly the terminators that
      start after a non-empty group and no later than the end of the line. */
  lemma MatchesOnLine(text: string, tag: string, term: string, i: nat)
    requires OccursAt(text, tag, i)
    ensures forall j :: MatchAt(text, tag, term, i, j) <==>
      i + |tag| < j <= LineEnd(text, i + |tag|) && OccursAt(text, term, j)
  {
    forall j | i + |tag| < j <= |text| {
      NoNewlineIffWithinLine(text, i + |tag|, j);
    }
  }

  /** The terminator a match with its label at `i` ends at: the greedy group
      runs to the last terminator on the label's line. */
  function TermOnLine(text: string, tag: string, term: string, i: nat): (r: Option<nat>)
    requires OccursAt(text, tag, i)
    ensures r.Some? ==> MatchAt(text, tag, term, i, r.value)
    ensures r.Some? ==> forall j' :: r.value < j' ==> !MatchAt(text, tag, term, i, j')
    ensures r.None? ==> forall j' :: !MatchAt(text, tag, term, i, j')
  {
    var s := i + |tag|;
    MatchesOnLine(text, tag, term, i);
    match LastTermAt(text, term, s + 1, LineEnd(text, s))
    case Some(j) => Some(j)
    case None => None
  }

  /** The first match whose tag starts at `i` or later. */
  function SearchFrom(text: string, tag: string, term: string, i: nat): (r: Option<(nat, nat)>)
    ensures r.Some? ==> i <= r.value.0 && MatchAt(text, tag, term, r.value.0, r.value.1)
    ensures r.Some? ==> forall i', j' :: i <= i' < r.value.0 ==> !MatchAt(text, tag, term, i', j')
    ensures r.Some? ==> forall j' :: r.value.1 < j' ==> !MatchAt(text, tag, term, r.value.0, j')
    ensures r.None? ==> forall i', j' :: i <= i' ==> !MatchAt(text, tag, term, i', j')
    decreases |text| - i
  {
    if i + |tag| > |text| then None
    else if !OccursAt(text, tag, i) then SearchFrom(text, tag, term, i + 1)
    else
      match TermOnLine(text, tag, term, i)
      case Some(j) => Some((i, j))
      case None => SearchFrom(text, tag, term, i + 1)
  }

  /** The span (tag start, terminator start) of the first match, if any. */
  function Search(text: string, tag: string, term: string): (r: Option<(nat, nat)>)
    ensures r.Some? ==> FirstMatch(text, tag, term, r.value.0, r.value.1)
    ensures r.None? ==> forall i, j :: !MatchAt(text, tag, term, i, j)
  {
    SearchFrom(text, tag, term, 0)
  }

  /** `re.findall(Label(.+)Term, text)[0]`, with `None` for an empty result. */
  function FindField(text: string, tag: string, term: string): (r: Option<string>)
    ensures r.None? <==> forall i, j :: !MatchAt(text, tag, term, i, j)
    ensures r.Some? ==> Captured(text, tag, term, r.value)
  {
    match Search(text, tag, term)
    case None => None
    case Some((i, j)) => Some(text[i + |tag|..j])
  }

  /** There is at most one first match, so a capture is well defined. */
  lemma {:induction false} CapturedUnique(text: string, tag: string, term: string, v: string, w: string)
    requires Captured(text, tag, term, v) && Captured(text, tag, term, w)
    ensures v == w
  {
    var i, j :| FirstMatch(text, tag, term, i, j) && v == text[i + |tag|..j];
    var i', j' :| FirstMatch(text, tag, term, i', j') && w == text[i' + |tag|..j'];
    assert MatchAt(text, tag, term, i, j) && MatchAt(text, tag, term, i', j');
  }

  /** The extractor reports `v` exactly when `v` is the first match's group. */
  lemma FindFieldIff(text: string, tag: string, term: string, v: string)
    ensures FindField(text, tag, term) == Some(v) <==> Captured(text, tag, term, v)
  {
    var r := FindField(text, tag, term);
    if Captured(text, tag, term, v) {
      var i, j :| FirstMatch(text, tag, term, i, j) && v == text[i + |tag|..j];
      assert MatchAt(text, tag, term, i, j);
      CapturedUnique(text, tag, term, r.value, v);
    }
  }

  /** A capture is non-empty, lies on one line, is not trimmed, and the text
      holds it between its tag and its terminator. */
  lemma CapturedShape(text: string, tag: string, term: string, v: string)
    requires Captured(text, tag, term, v)
    ensures |v| > 0 && '\n' !in v
    ensures exists i :: OccursAt(text, tag + v + term, i)
  {
    var i, j :| FirstMatch(text, tag, term, i, j) && v == text[i + |tag|..j];
    MatchShape(text, tag, term, i, j);
  }

  /** The text of a match is its label, its group and its terminator. */
  lemma MatchShape(text: string, tag: string, term: string, i: int, j: int)
    requires MatchAt(text, tag, term, i, j)
    ensures |text[i + |tag|..j]| > 0 && '\n' !in text[i + |tag|..j]
    ensures OccursAt(text, tag + text[i + |tag|..j] + term, i)
  {
    var g := text[i + |tag|..j];
    assert text[i..j + |term|] == text[i..i + |tag|] + g + text[j..j + |term|];
  }

  /** No occurrence of a single-line label starts inside a prefix that
      ends a line and does not hold the label itself. */
  lemma NoTagInPrefix(text: string, pre: string, tag: string)
    requires |pre| <= |text| && text[..|pre|] == pre
    requires pre == [] || pre[|pre| - 1] == '\n'
    requires '\n' !in tag
    requires forall i :: !OccursAt(pre, tag, i)
    ensures forall i :: i < |pre| ==> !OccursAt(text, tag, i)
  {
    forall i | 0 <= i < |pre|
      ensures !OccursAt(text, tag, i)
    {
      if i + |tag| <= |pre| {
        assert forall k :: i <= k < i + |tag| ==> text[k] == text[..|pre|][k];
        assert text[i..i + |tag|] == pre[i..i + |tag|];
        assert !OccursAt(pre, tag, i);
      } else if i + |tag| <= |text| {
        assert text[|pre| - 1] == pre[|pre| - 1];
        assert text[i..i + |tag|][|pre| - 1 - i] == '\n';
      }
    }
  }

  /** When the terminator found at `j` ends the line, no match with the same
      start ends later. */
  lemma NoLaterTerm(text: string, tag: string, term: string, s: nat, j: nat)
    requires MatchAt(text, tag, term, s, j)
    requires '\n' !in term
    requires j + |term| == |text| || text[j + |term|] == '\n'
    ensures forall j' :: j < j' ==> !MatchAt(text, tag, term, s, j')
  {
    var p := j + |term|;
    forall j' | j < j'
      ensures !MatchAt(text, tag, term, s, j')
    {
      if j' <= p {
        assert j' + |term| <= |text| ==> text[j'..j' + |term|][p - j'] == '\n';
      } else if j' <= |text| {
        assert text[s + |tag|..j'][p - s - |tag|] == '\n';
      }
    }
  }

  /** Round trip: a field written on its own line, after text holding no
      other occurrence of the label, is read back exactly. */
  lemma FindFieldOnLine(pre: string, tag: string, v: string, term: string, post: string)
    requires |v| > 0 && '\n' !in tag && '\n' !in v && '\n' !in term
    requires pre == [] || pre[|pre| - 1] == '\n'
    requires post == [] || post[0] == '\n'
    requires forall i :: !OccursAt(pre, tag, i)
    ensures FindField(pre + tag + v + term + post, tag, term) == Some(v)
  {
    var text := pre + tag + v + term + post;
    var s := |pre|;
    var j := s + |tag| + |v|;
    assert text[..s] == pre;
    assert text[s..s + |tag|] == tag;
    assert text[s + |tag|..j] == v;
    assert text[j..j + |term|] == term;
    assert post != [] ==> text[j + |term|] == post[0];
    assert MatchAt(text, tag, term, s, j);
    NoTagInPrefix(text, pre, tag);
    NoLaterTerm(text, tag, term, s, j);
    assert FirstMatch(text, tag, term, s, j);
    FindFieldIff(text, tag, term, v);
  }

  /** `MyBot.__extract_data_from_pdf` on the page texts of one document:
      the title rule runs first, then the UII rule, both on page key 1. */
  function ExtractDocument(pages: map<int, string>): (r: Result<DocumentRecord, ExtractError>)
    ensures r == Failure(PageMissing) <==> FieldsPage !in pages
  {
    if FieldsPage !in pages then Failure(PageMissing)
    else
      var text := pages[FieldsPage];
      match FindField(text, TitleLabel, TitleTerm)
      case None => Failure(FieldNotFound(Title))
      case Some(title) =>
        match FindField(text, UiiLabel, UiiTerm)
        case None => Failure(FieldNotFound(Uii))
        case Some(uii) => Success(DocumentRecord(uii, title))
  }

  /** A two-line page: a title line that ends with the title terminator,
      then a line holding the UII field. When more text follows `2.` on
      the title's line, the greedy group runs on to the last `2.` there
      instead, and this round trip does not apply. */
  function FieldsPageText(title: string, uii: string): string
  {
    TitleLabel + title + TitleTerm + "\n" + UiiLabel + uii + UiiTerm
  }

  lemma LabelsAreSingleLine()
    ensures '\n' !in TitleLabel && '\n' !in TitleTerm
    ensures '\n' !in UiiLabel && '\n' !in UiiTerm
  {
  }

  lemma {:induction false} TitleRoundTrip(title: string, uii: string)
    requires |title| > 0 && '\n' !in title
    ensures FindField(FieldsPageText(title, uii), TitleLabel, TitleTerm) == Some(title)
  {
    LabelsAreSingleLine();
    var post := "\n" + UiiLabel + uii + UiiTerm;
    assert FieldsPageText(title, uii) == [] + TitleLabel + title + TitleTerm + post;
    FindFieldOnLine([], TitleLabel, title, TitleTerm, post);
  }

  lemma {:induction false} UiiRoundTrip(title: string, uii: string)
    requires |uii| > 0 && '\n' !in uii
    requires forall i :: !OccursAt(TitleLabel + title + TitleTerm + "\n", UiiLabel, i)
    ensures FindField(FieldsPageText(title, uii), UiiLabel, UiiTerm) == Some(uii)
  {
    LabelsAreSingleLine();
    var pre := TitleLabel + title + TitleTerm + "\n";
    assert FieldsPageText(title, uii) == pre + UiiLabel + uii + UiiTerm + [];
    FindFieldOnLine(pre, UiiLabel, uii, UiiTerm, []);
  }

  /** Round trip for a whole page in the two-line layout of `FieldsPageText`:
      both fields are read back, provided the title line does not itself hold
      the UII label. */
  lemma {:induction false} ExtractDocumentRoundTrip(title: string, uii: string)
    requires |title| > 0 && '\n' !in title
    requires |uii| > 0 && '\n' !in uii
    requires forall i :: !OccursAt(TitleLabel + title + TitleTerm + "\n", UiiLabel, i)
    ensures ExtractDocument(map[FieldsPage := FieldsPageText(title, uii)]) == Success(DocumentRecord(uii, title))
  {
    TitleRoundTrip(title, uii);
    UiiRoundTrip(title, uii);
  }

  /** A successfully extracted record's fields are non-empty single-line
      texts that stand on the page between their label and terminator. */
  lemma ExtractedFieldsShape(pages: map<int, string>, d: DocumentRecord)
    requires ExtractDocument(pages) == Success(d)
    ensures FieldsPage in pages
    ensures |d.title| > 0 && '\n' !in d.title
    ensures exists i :: OccursAt(pages[FieldsPage], TitleLabel + d.title + TitleTerm, i)
    ensures |d.uii| > 0 && '\n' !in d.uii
    ensures exists i :: OccursAt(pages[FieldsPage], UiiLabel + d.uii + UiiTerm, i)
  {
    CapturedShape(pages[FieldsPage], TitleLabel, TitleTerm, d.title);
    CapturedShape(pages[FieldsPage], UiiLabel, UiiTerm, d.uii);
  }

  /** What the extractor promises of a page map: each error says exactly
      which step failed, and a success carries both fields' captures. */
  lemma ExtractDocumentSpec(pages: map<int, string>)
    ensures ExtractDocument(pages) == Failure(PageMissing) <==> FieldsPage !in pages
    ensures ExtractDocument(pages) == Failure(FieldNotFound(Title)) <==>
      FieldsPage in pages && forall i, j :: !MatchAt(pages[FieldsPage], TitleLabel, TitleTerm, i, j)
    ensures ExtractDocument(pages) == Failure(FieldNotFound(Uii)) <==>
      FieldsPage in pages
      && (exists i, j :: MatchAt(pages[FieldsPage], TitleLabel, TitleTerm, i, j))
      && forall i, j :: !MatchAt(pages[FieldsPage], UiiLabel, UiiTerm, i, j)
    ensures ExtractDocument(pages).Success? ==>
      FieldsPage in pages
      && Captured(pages[FieldsPage], TitleLabel, TitleTerm, ExtractDocument(pages).value.title)
      && Captured(pages[FieldsPage], UiiLabel, UiiTerm, ExtractDocument(pages).value.uii)
  {
  }
}
