/** The reconciliation engine (`MyBot.__compare_data`): every record read
    from a business-case PDF is looked up in the rows of the target sheet
    by its UII (column A); the first row carrying that UII decides whether
    the titles (column C) match, and each record adds one line to the
    report. */
module Reconcile {
  import opened Wrappers
  import opened Text
  import opened PdfFields

  /** A worksheet cell as read back from the workbook; an empty cell has
      no value (Python's `None`). */
  type Cell = Option<string>

  /** The two columns of a sheet row the engine looks at: `A` (the UII)
      and `C` (the investment title). */
  datatype SheetRow = SheetRow(a: Cell, c: Cell)

  datatype Outcome =
    | Matched(uii: string, title: string)
    | Mismatched(uii: string, title: string, sheetTitle: Cell)
    | NotFound(uii: string)

  /** How an f-string renders a cell: its text, or "None" when empty. */
  function CellText(c: Cell): (s: string)
    ensures c.Some? ==> s == c.value
    ensures c.None? ==> s == "None"
  {
    match c
    case Some(s) => s
    case None => "None"
  }

  predicate HasKey(row: SheetRow, uii: string)
  {
    row.a == Some(uii)
  }

  /** The verdict of a row that carries the record's UII. */
  function Decide(p: DocumentRecord, row: SheetRow): (o: Outcome)
    ensures o.uii == p.uii && !o.NotFound? && o.title == p.title
    ensures o.Matched? <==> row.c == Some(p.title)
    ensures o.Mismatched? ==> o.sheetTitle == row.c
  {
    if row.c == Some(p.title) then Matched(p.uii, p.title)
    else Mismatched(p.uii, p.title, row.c)
  }

  /** The outcome for one record: scan the rows in order; the first row
      whose column A is the UII decides. */
  function Classify(p: DocumentRecord, rows: seq<SheetRow>): (o: Outcome)
    ensures o.uii == p.uii
  {
    if rows == [] then NotFound(p.uii)
    else if HasKey(rows[0], p.uii) then Decide(p, rows[0])
    else Classify(p, rows[1..])
  }

  /** The report line of an outcome, without its newline. */
  function LineText(o: Outcome): string
  {
    match o
    case Matched(uii, title) => uii + ": Titles match to " + title
    case Mismatched(uii, title, c) => uii + ": Titles unmatch --> " + title + " != " + CellText(c)
    case NotFound(uii) => uii + ": Not found"
  }

  /** The report: one newline-terminated line per record, in record order. */
  function Report(docs: seq<DocumentRecord>, rows: seq<SheetRow>): (r: string)
    ensures r == "" <==> docs == []
  {
    if docs == [] then ""
    else LineText(Classify(docs[0], rows)) + "\n" + Report(docs[1..], rows)
  }

  /** The line texts the report should consist of, one per record. */
  function Lines(docs: seq<DocumentRecord>, rows: seq<SheetRow>): (ls: seq<string>)
    ensures |ls| == |docs|
  {
    seq(|docs|, i requires 0 <= i < |docs| => LineText(Classify(docs[i], rows)))
  }

  /** None of the texts that end up in a report line contains a newline. */
  ghost predicate NewlineFree(docs: seq<DocumentRecord>, rows: seq<SheetRow>)
  {
    && (forall i :: 0 <= i < |docs| ==> '\n' !in docs[i].uii && '\n' !in docs[i].title)
    && (forall k :: 0 <= k < |rows| && rows[k].c.Some? ==> '\n' !in rows[k].c.value)
  }

  /** All values in order, or the first failure: a loop that appends each
      result to a list and lets the first exception propagate. */
  function Collect<T, E>(rs: seq<Result<T, E>>): (r: Result<seq<T>, E>)
    ensures r.Success? ==> |r.value| == |rs|
  {
    if rs == [] then Success([])
    else
      match rs[0]
      case Failure(e) => Failure(e)
      case Success(v) =>
        match Collect(rs[1..])
        case Failure(e) => Failure(e)
        case Success(vs) => Success([v] + vs)
  }

  /** When every result is a success, they are all collected, in order. */
  lemma {:induction false} CollectAllSucceed<T, E>(rs: seq<Result<T, E>>, vs: seq<T>)
    requires |vs| == |rs|
    requires forall i :: 0 <= i < |rs| ==> rs[i] == Success(vs[i])
    ensures Collect(rs) == Success(vs)
  {
    if rs != [] {
      assert forall i :: 0 <= i < |rs| - 1 ==> rs[1..][i] == rs[i + 1];
      CollectAllSucceed(rs[1..], vs[1..]);
      assert vs == [vs[0]] + vs[1..];
    }
  }

  /** Otherwise the first failure is reported. */
  lemma {:induction false} CollectFirstFailure<T, E>(rs: seq<Result<T, E>>, k: nat)
    requires k < |rs| && rs[k].Failure?
    requires forall i :: 0 <= i < k ==> rs[i].Success?
    ensures Collect(rs) == Failure(rs[k].error)
  {
    if k > 0 {
      assert forall i :: 0 <= i < k - 1 ==> rs[1..][i] == rs[i + 1];
      CollectFirstFailure(rs[1..], k - 1);
    }
  }

  /** A success collects exactly one value per result. */
  lemma {:induction false} CollectSuccess<T, E>(rs: seq<Result<T, E>>)
    requires Collect(rs).Success?
    ensures |Collect(rs).value| == |rs|
    ensures forall i :: 0 <= i < |rs| ==> rs[i] == Success(Collect(rs).value[i])
  {
    if rs != [] {
      CollectSuccess(rs[1..]);
      assert forall i :: 1 <= i < |rs| ==> rs[i] == rs[1..][i - 1];
    }
  }

  /** `extract` applied to each source, in order. */
  function MapEach<A, B>(extract: A -> B, sources: seq<A>): (bs: seq<B>)
    ensures |bs| == |sources|
    ensures forall i :: 0 <= i < |sources| ==> bs[i] == extract(sources[i])
  {
    seq(|sources|, i requires 0 <= i < |sources| => extract(sources[i]))
  }

  /** The extraction outcome of each downloaded PDF, in download order. */
  function Extractions(pdfs: seq<map<int, string>>): (rs: seq<Result<DocumentRecord, ExtractError>>)
    ensures |rs| == |pdfs|
  {
    MapEach(ExtractDocument, pdfs)
  }

  /** Every record is extracted, in order, or the first failure stops the
      whole comparison (the loop filling `data["pdf"]`). */
  function ExtractAll(pdfs: seq<map<int, string>>): (r: Result<seq<DocumentRecord>, ExtractError>)
    ensures r.Success? ==> |r.value| == |pdfs|
  {
    Collect(Extractions(pdfs))
  }

  /** What `__compare_data` produces from the page texts of the downloaded
      PDFs (in download order) and the rows of the target sheet. */
  function Reconciliation(pdfs: seq<map<int, string>>, rows: seq<SheetRow>): (r: Result<string, ExtractError>)
    ensures r.Success? ==> (r.value == "" <==> pdfs == [])
  {
    match ExtractAll(pdfs)
    case Failure(e) => Failure(e)
    case Success(docs) => Success(Report(docs, rows))
  }

  /** Reports of consecutive record lists concatenate: the report keeps
      record order. */
  lemma {:induction false} ReportAppend(d1: seq<DocumentRecord>, d2: seq<DocumentRecord>, rows: seq<SheetRow>)
    ensures Report(d1 + d2, rows) == Report(d1, rows) + Report(d2, rows)
  {
    if d1 != [] {
      assert (d1 + d2)[1..] == d1[1..] + d2;
      ReportAppend(d1[1..], d2, rows);
    } else {
      assert d1 + d2 == d2;
    }
  }

  /** One step of the row scan. */
  lemma ClassifyStep(p: DocumentRecord, rows: seq<SheetRow>, j: nat)
    requires j < |rows|
    ensures Classify(p, rows[j..]) ==
      if HasKey(rows[j], p.uii) then Decide(p, rows[j]) else Classify(p, rows[j + 1..])
  {
    assert rows[j..][0] == rows[j] && rows[j..][1..] == rows[j + 1..];
  }

  /** Growing the report by one record adds that record's line. */
  lemma ReportSnoc(docs: seq<DocumentRecord>, i: nat, rows: seq<SheetRow>)
    requires i < |docs|
    ensures Report(docs[..i + 1], rows) == Report(docs[..i], rows) + (LineText(Classify(docs[i], rows)) + "\n")
  {
    var x := docs[i];
    var line := LineText(Classify(x, rows)) + "\n";
    assert [x][1..] == [];
    assert Report([x], rows) == line + Report([], rows);
    assert line + [] == line;
    assert docs[..i + 1] == docs[..i] + [x];
    ReportAppend(docs[..i], [x], rows);
  }

  /** The first loop of `__compare_data`: run the extractor on each source
      in order, appending each value; the first failure propagates. */
  method ExtractEach<A, T, E>(extract: A -> Result<T, E>, sources: seq<A>) returns (r: Result<seq<T>, E>)
    ensures r == Collect(MapEach(extract, sources))
  {
    ghost var rs := MapEach(extract, sources);
    var values: seq<T> := [];
    for k := 0 to |sources|
      invariant |values| == k
      invariant forall i :: 0 <= i < k ==> rs[i] == Success(values[i])
    {
      var v := extract(sources[k]);
      if v.Failure? {
        CollectFirstFailure(rs, k);
        return Failure(v.error);
      }
      values := values + [v.value];
    }
    CollectAllSucceed(rs, values);
    r := Success(values);
  }

  /** `__compare_data`: extract every PDF, then join the records against
      the sheet rows. */
  method CompareData(pdfs: seq<map<int, string>>, rows: seq<SheetRow>) returns (r: Result<string, ExtractError>)
    ensures r == Reconciliation(pdfs, rows)
  {
    var extracted := ExtractEach(ExtractDocument, pdfs);
    if extracted.Failure? {
      return Failure(extracted.error);
    }
    var message := CompareRecords(extracted.value, rows);
    r := Success(message);
  }

  /** The join of `__compare_data`: for each record, scan the rows with a
      `found` flag, stop at the first row carrying its UII, and append the
      record's line to `message`. */
  method CompareRecords(docs: seq<DocumentRecord>, rows: seq<SheetRow>) returns (message: string)
    ensures message == Report(docs, rows)
  {
    message := "";
    for i := 0 to |docs|
      invariant message == Report(docs[..i], rows)
    {
      var p := docs[i];
      ghost var before := message;
      var found := false;
      var j := 0;
      while j < |rows|
        invariant j <= |rows|
        invariant !found && message == before
        invariant Classify(p, rows[j..]) == Classify(p, rows)
      {
        var e := rows[j];
        ClassifyStep(p, rows, j);
        if e.a == Some(p.uii) && e.c == Some(p.title) {
          assert Classify(p, rows) == Matched(p.uii, p.title);
          message := message + (p.uii + ": Titles match to " + p.title + "\n");
          found := true;
          break;
        }
        if e.a == Some(p.uii) && e.c != Some(p.title) {
          assert Classify(p, rows) == Mismatched(p.uii, p.title, e.c);
          message := message + (p.uii + ": Titles unmatch --> " + p.title + " != " + CellText(e.c) + "\n");
          found := true;
          break;
        }
        j := j + 1;
      }
      if !found {
        assert rows[j..] == [];
        message := message + (p.uii + ": Not found\n");
      }
      ReportSnoc(docs, i, rows);
    }
    assert docs[..|docs|] == docs;
  }

  // ---- properties of the join ----

  /** "Not found" exactly when no row carries the record's UII. */
  lemma {:induction false} ClassifyNotFoundIff(p: DocumentRecord, rows: seq<SheetRow>)
    ensures Classify(p, rows).NotFound? <==> forall k :: 0 <= k < |rows| ==> !HasKey(rows[k], p.uii)
  {
    if rows != [] && !HasKey(rows[0], p.uii) {
      ClassifyNotFoundIff(p, rows[1..]);
      assert forall k :: 1 <= k < |rows| ==> rows[k] == rows[1..][k - 1];
    }
  }

  /** The first row carrying the UII decides the outcome. */
  lemma {:induction false} ClassifyFirstKeyRow(p: DocumentRecord, rows: seq<SheetRow>, k: nat)
    requires k < |rows| && HasKey(rows[k], p.uii)
    requires forall j :: 0 <= j < k ==> !HasKey(rows[j], p.uii)
    ensures Classify(p, rows) == Decide(p, rows[k])
  {
    if k > 0 {
      assert forall j :: 0 <= j < k - 1 ==> rows[1..][j] == rows[j + 1];
      ClassifyFirstKeyRow(p, rows[1..], k - 1);
    }
  }

  /** Once a row carrying the UII has been seen, rows after it are never
      examined: appending rows changes nothing. */
  lemma {:induction false} ClassifyIgnoresLaterRows(p: DocumentRecord, pre: seq<SheetRow>, more: seq<SheetRow>)
    requires exists k :: 0 <= k < |pre| && HasKey(pre[k], p.uii)
    ensures Classify(p, pre + more) == Classify(p, pre)
  {
    var k :| 0 <= k < |pre| && HasKey(pre[k], p.uii);
    assert (pre + more)[0] == pre[0];
    if !HasKey(pre[0], p.uii) {
      assert pre[1..][k - 1] == pre[k];
      assert (pre + more)[1..] == pre[1..] + more;
      ClassifyIgnoresLaterRows(p, pre[1..], more);
    }
  }

  /** A record is reported as matching exactly when some row carries its
      UII and its title, and no row before it carries the UII with another
      title. */
  lemma {:induction false} ClassifyMatchedIff(p: DocumentRecord, rows: seq<SheetRow>)
    ensures Classify(p, rows).Matched? <==>
      exists k :: 0 <= k < |rows| && HasKey(rows[k], p.uii) && rows[k].c == Some(p.title)
        && forall j :: 0 <= j < k ==> !(HasKey(rows[j], p.uii) && rows[j].c != Some(p.title))
  {
    if rows == [] {
    } else if HasKey(rows[0], p.uii) {
      if rows[0].c == Some(p.title) {
        assert HasKey(rows[0], p.uii) && rows[0].c == Some(p.title);
      }
    } else {
      var tail := rows[1..];
      ClassifyMatchedIff(p, tail);
      if Classify(p, tail).Matched? {
        var k :| 0 <= k < |tail| && HasKey(tail[k], p.uii) && tail[k].c == Some(p.title)
          && forall j :: 0 <= j < k ==> !(HasKey(tail[j], p.uii) && tail[j].c != Some(p.title));
        assert rows[k + 1] == tail[k];
        assert forall j :: 1 <= j < k + 1 ==> rows[j] == tail[j - 1];
      }
      forall k | 0 <= k < |rows| && HasKey(rows[k], p.uii) && rows[k].c == Some(p.title)
          && (forall j :: 0 <= j < k ==> !(HasKey(rows[j], p.uii) && rows[j].c != Some(p.title)))
        ensures Classify(p, tail).Matched?
      {
        assert tail[k - 1] == rows[k];
        assert forall j :: 0 <= j < k - 1 ==> tail[j] == rows[j + 1];
      }
    }
  }

  /** Column A holds each UII at most once (the sheet is keyed by UII). */
  ghost predicate UniqueKeys(rows: seq<SheetRow>)
  {
    forall i, j :: 0 <= i < j < |rows| && rows[i].a.Some? ==> rows[i].a != rows[j].a
  }

  /** With unique keys, whichever row carries the UII decides. */
  lemma ClassifyByKeyRow(p: DocumentRecord, rows: seq<SheetRow>, k: nat)
    requires UniqueKeys(rows) && k < |rows| && HasKey(rows[k], p.uii)
    ensures Classify(p, rows) == Decide(p, rows[k])
  {
    ClassifyFirstKeyRow(p, rows, k);
  }

  /** With unique keys, the order of the sheet rows does not matter. */
  lemma ClassifyPermutation(p: DocumentRecord, rows: seq<SheetRow>, rows': seq<SheetRow>)
    requires UniqueKeys(rows) && UniqueKeys(rows') && multiset(rows) == multiset(rows')
    ensures Classify(p, rows) == Classify(p, rows')
  {
    ClassifyNotFoundIff(p, rows);
    ClassifyNotFoundIff(p, rows');
    if k :| 0 <= k < |rows| && HasKey(rows[k], p.uii) {
      assert rows[k] in multiset(rows');
      var k' :| 0 <= k' < |rows'| && rows'[k'] == rows[k];
      ClassifyByKeyRow(p, rows, k);
      ClassifyByKeyRow(p, rows', k');
    } else {
      forall k' | 0 <= k' < |rows'|
        ensures !HasKey(rows'[k'], p.uii)
      {
        assert rows'[k'] in multiset(rows);
      }
    }
  }

  /** The whole report is independent of the row order of a keyed sheet. */
  lemma {:induction false} ReportPermutation(docs: seq<DocumentRecord>, rows: seq<SheetRow>, rows': seq<SheetRow>)
    requires UniqueKeys(rows) && UniqueKeys(rows') && multiset(rows) == multiset(rows')
    ensures Report(docs, rows) == Report(docs, rows')
  {
    if docs != [] {
      ClassifyPermutation(docs[0], rows, rows');
      ReportPermutation(docs[1..], rows, rows');
    }
  }

  // ---- properties of the report text ----

  /** A line has no newline of its own when the texts it quotes have none. */
  lemma {:induction false} LineTextNewlineFree(p: DocumentRecord, rows: seq<SheetRow>)
    requires '\n' !in p.uii && '\n' !in p.title
    requires forall k :: 0 <= k < |rows| && rows[k].c.Some? ==> '\n' !in rows[k].c.value
    ensures '\n' !in LineText(Classify(p, rows))
  {
    assert '\n' !in ": Titles match to " && '\n' !in ": Titles unmatch --> " && '\n' !in " != ";
    assert '\n' !in ": Not found" && '\n' !in "None";
    if rows != [] && !HasKey(rows[0], p.uii) {
      assert forall k :: 0 <= k < |rows| - 1 ==> rows[1..][k] == rows[k + 1];
      LineTextNewlineFree(p, rows[1..]);
    }
  }

  lemma LinesCons(docs: seq<DocumentRecord>, rows: seq<SheetRow>)
    requires docs != []
    ensures Lines(docs, rows) == [LineText(Classify(docs[0], rows))] + Lines(docs[1..], rows)
  {
  }

  lemma NewlineFreeTail(docs: seq<DocumentRecord>, rows: seq<SheetRow>)
    requires docs != [] && NewlineFree(docs, rows)
    ensures NewlineFree(docs[1..], rows)
    ensures '\n' !in docs[0].uii && '\n' !in docs[0].title
  {
    assert forall i :: 0 <= i < |docs| - 1 ==> docs[1..][i] == docs[i + 1];
  }

  /** The report splits into exactly one line per record, in record order,
      provided no UII, title or column-C text holds a newline. */
  lemma {:induction false} ReportOneLinePerRecord(docs: seq<DocumentRecord>, rows: seq<SheetRow>)
    requires NewlineFree(docs, rows)
    ensures SplitLines(Report(docs, rows)) == Lines(docs, rows)
  {
    if docs != [] {
      NewlineFreeTail(docs, rows);
      LineTextNewlineFree(docs[0], rows);
      ReportOneLinePerRecord(docs[1..], rows);
      SplitFirstLine(LineText(Classify(docs[0], rows)), Report(docs[1..], rows));
      LinesCons(docs, rows);
    }
  }

  /** Against an empty sheet every record is reported "Not found". */
  lemma ReportOnEmptySheet(docs: seq<DocumentRecord>)
    requires forall i :: 0 <= i < |docs| ==> '\n' !in docs[i].uii && '\n' !in docs[i].title
    ensures SplitLines(Report(docs, [])) == seq(|docs|, i requires 0 <= i < |docs| => docs[i].uii + ": Not found")
  {
    ReportOneLinePerRecord(docs, []);
  }

  /** End to end: when every PDF extracts, the report has exactly one line
      per PDF, in download order, provided the sheet's titles are single
      lines (the extracted fields always are). */
  lemma {:induction false} ReconciliationOneLinePerPdf(pdfs: seq<map<int, string>>, rows: seq<SheetRow>, report: string)
    requires Reconciliation(pdfs, rows) == Success(report)
    requires forall k :: 0 <= k < |rows| && rows[k].c.Some? ==> '\n' !in rows[k].c.value
    ensures |SplitLines(report)| == |pdfs|
    ensures forall i :: 0 <= i < |pdfs| ==>
      ExtractDocument(pdfs[i]).Success?
      && SplitLines(report)[i] == LineText(Classify(ExtractDocument(pdfs[i]).value, rows))
  {
    var docs := ExtractAll(pdfs).value;
    CollectSuccess(Extractions(pdfs));
    forall i | 0 <= i < |docs|
      ensures '\n' !in docs[i].uii && '\n' !in docs[i].title
    {
      ExtractedFieldsShape(pdfs[i], docs[i]);
    }
    ReportOneLinePerRecord(docs, rows);
  }
}
