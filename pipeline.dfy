/**
  The row-building part of main.py's `process_excel` (main.py:149-219).
  Each author record is turned into rows for three tables:
  All_Clean_Emails (every valid email; only the first valid email keeps
  the author's name, the others carry the text "None"),
  Similar_Name_Emails (the valid emails also listed as similar, with the
  author's name) and AI_Processed_Emails (the valid emails sent to the
  rule-based extractor: all of them when the name is missing, the extra
  ones otherwise). Each table then loses its repeated emails and is sorted
  by Citations, highest first.
*/
module Pipeline {
  import opened Text
  import opened Wrappers
  import opened EmailRegex
  import opened Names
  import opened Country
  import opened NameExtractor
  import opened Tables

  /**
    One input row: the columns Name, Citations, All Emails and Similar
    Emails; `None` is a cell pandas reads as missing.
  */
  datatype Record = Record(name: Option<string>, citations: int, allEmails: Option<string>, similarEmails: Option<string>)

  /** The rows appended to `all_rows`, `similar_rows` and `extracted_rows`. */
  datatype Sheets = Sheets(all: seq<Row>, similar: seq<Row>, extracted: seq<Row>)

  const NoSheets: Sheets := Sheets([], [], [])

  /** The rows of `a` followed by those of `b`, table by table. */
  function Concat(a: Sheets, b: Sheets): Sheets {
    Sheets(a.all + b.all, a.similar + b.similar, a.extracted + b.extracted)
  }

  /**
    `[e.strip() for e in str(cell).split(",")]` when the cell is present,
    `[]` when it is missing (main.py:156-158, main.py:160-162).
  */
  function ParseEmails(cell: Option<string>): seq<string> {
    match cell
    case None => []
    case Some(s) =>
      var pieces := Split(s, {','});
      seq(|pieces|, k requires 0 <= k < |pieces| => Strip(pieces[k]))
  }

  /**
    A missing cell gives no entries; a present one gives one entry per
    comma-separated piece, none starting or ending with whitespace.
  */
  lemma ParseEmailsShape(cell: Option<string>)
    ensures cell.None? ==> ParseEmails(cell) == []
    ensures cell.Some? ==> |ParseEmails(cell)| == Count(cell.value, ',') + 1
    ensures forall k :: 0 <= k < |ParseEmails(cell)| ==>
      var e := ParseEmails(cell)[k]; e == [] || (!IsSpace(e[0]) && !IsSpace(e[|e| - 1]))
    ensures forall k, i :: 0 <= k < |ParseEmails(cell)| && 0 <= i < |ParseEmails(cell)[k]| ==>
      ParseEmails(cell)[k][i] != ','
    ensures cell.Some? ==>
      var pieces := Split(cell.value, {','});
      Join(pieces, ",") == cell.value &&
      forall k :: 0 <= k < |pieces| ==> ParseEmails(cell)[k] == Strip(pieces[k])
  {
    if cell.Some? {
      var pieces := Split(cell.value, {','});
      SplitCount(cell.value, ',');
      JoinSplit(cell.value, ',');
      forall k, i | 0 <= k < |ParseEmails(cell)| && 0 <= i < |ParseEmails(cell)[k]|
        ensures ParseEmails(cell)[k][i] != ','
      {
        var lo := StripIsSlice(pieces[k]);
        assert ParseEmails(cell)[k][i] == pieces[k][lo + i];
        SplitPiecesAvoid(cell.value, {','}, k, lo + i);
      }
    }
  }

  /** What `strip` keeps is a contiguous slice of the text. */
  lemma StripIsSlice(p: string) returns (lo: nat)
    ensures lo + |Strip(p)| <= |p| && Strip(p) == p[lo..lo + |Strip(p)|]
  {
    var a := TrimStart(p);
    lo := |p| - |a|;
    assert Strip(p) == a[..|Strip(p)|];
  }

  /** `similar_emails`: the set of stripped entries of the Similar Emails cell. */
  function ParseSimilar(cell: Option<string>): set<string> {
    set e | e in ParseEmails(cell)
  }

  /** `e and EMAIL_REGEX.match(e)` */
  predicate Usable(e: string) {
    e != "" && Matches(e)
  }

  /** `[e for e in emails if e and EMAIL_REGEX.match(e)]` (main.py:165). */
  function ValidEmails(emails: seq<string>): seq<string> {
    if emails == [] then []
    else
      var last := emails[|emails| - 1];
      var v := ValidEmails(emails[..|emails| - 1]);
      if Usable(last) then v + [last] else v
  }

  /**
    The filter works entry by entry: it distributes over concatenation and
    keeps a single entry exactly when it is usable, so the kept entries
    stay in input order and keep their repeats.
  */
  lemma {:induction false} ValidEmailsAppend(a: seq<string>, b: seq<string>)
    ensures ValidEmails(a + b) == ValidEmails(a) + ValidEmails(b)
    ensures |b| == 1 ==> ValidEmails(b) == if Usable(b[0]) then b else []
  {
    if b == [] {
      assert a + b == a;
    } else {
      var init := b[..|b| - 1];
      ValidEmailsAppend(a, init);
      assert (a + b)[..|a + b| - 1] == a + init;
      if |b| == 1 {
        assert init == [];
      }
    }
  }

  /**
    The filter keeps exactly the usable entries: each kept entry is usable
    and one of the inputs, and each usable input is kept.
  */
  lemma {:induction false} ValidEmailsFilter(emails: seq<string>)
    ensures |ValidEmails(emails)| <= |emails|
    ensures forall k :: 0 <= k < |ValidEmails(emails)| ==> Usable(ValidEmails(emails)[k]) && ValidEmails(emails)[k] in emails
    ensures forall k :: 0 <= k < |emails| && Usable(emails[k]) ==> emails[k] in ValidEmails(emails)
  {
    if emails != [] {
      var init := emails[..|emails| - 1];
      ValidEmailsFilter(init);
      assert forall k :: 0 <= k < |init| ==> init[k] == emails[k];
      assert emails == init + [emails[|emails| - 1]];
    }
  }

  /** A matched email has one '@'; the second piece of `split("@")` is all that follows it. */
  lemma DomainFacts(email: string)
    requires Matches(email)
    ensures |Split(email, {'@'})| == 2
    ensures email == LocalPart(email) + "@" + Split(email, {'@'})[1]
    ensures forall j :: 0 <= j < |Split(email, {'@'})[1]| ==> Split(email, {'@'})[1][j] != '@'
  {
    var at := SingleAt(email);
    OneAtSplit(email, at);
  }

  /** `split("@")` of a text whose only '@' is at `at`. */
  lemma OneAtSplit(email: string, at: nat)
    requires at < |email| && email[at] == '@'
    requires forall j :: 0 <= j < |email| && j != at ==> email[j] != '@'
    ensures |Split(email, {'@'})| == 2
    ensures email == LocalPart(email) + "@" + Split(email, {'@'})[1]
    ensures forall j :: 0 <= j < |Split(email, {'@'})[1]| ==> Split(email, {'@'})[1][j] != '@'
  {
    SplitAtOnlyAt(email, at);
    LocalPartIsPrefix(email);
    assert email == email[..at] + "@" + email[at + 1..];
    var rest := email[at + 1..];
    forall j | 0 <= j < |rest| ensures rest[j] != '@' {
      assert rest[j] == email[at + 1 + j];
    }
  }

  /**
    `email.split("@")[1]` (main.py:172). Python raises `IndexError` on a
    text without '@'; the model gives "" there, a case the regex filter
    rules out before the call (see `DomainOfMatched`).
  */
  function DomainOf(email: string): (domain: string) {
    var pieces := Split(email, {'@'});
    if |pieces| >= 2 then pieces[1] else ""
  }

  /** On a matched email, the domain is the whole text after its only '@'. */
  lemma DomainOfMatched(email: string)
    requires Matches(email)
    ensures email == LocalPart(email) + "@" + DomainOf(email)
    ensures forall j :: 0 <= j < |DomainOf(email)| ==> DomainOf(email)[j] != '@'
  {
    DomainFacts(email);
  }

  /**
    The two heuristics a row depends on beyond its email: the country of a
    domain and the name guessed from an email. main.py uses `get_country`
    and `extract_name_from_email`; backup.py the same `get_country` and the
    language model. Keeping them as parameters lets the row-building be
    stated once for any of them.
  */
  datatype Classifiers = Classifiers(country: string -> string, extract: string -> string)

  /** main.py's `get_country` (main.py:37-59). */
  function MainCountry(domain: string): string {
    GetCountry(MainTable, domain)
  }

  /** The heuristics of main.py. */
  const MainClassifiers: Classifiers := Classifiers(MainCountry, ExtractName)

  /** A row for `email` of an author with `citations` citations, named `name`. */
  function MakeRow(c: Classifiers, name: string, email: string, citations: int): Row {
    var domain := DomainOf(email);
    Row(Some(name), email, domain, c.country(domain), citations)
  }

  /** One pass of the loop body of main.py:170-208: the rows emitted for `email`. */
  function EmailStep(c: Classifiers, name: string, missing: bool, first: Option<string>, similar: set<string>, citations: int, email: string): Sheets
  {
    var extra := first != Some(email);
    Sheets([MakeRow(c, if extra then "None" else name, email, citations)],
           if email in similar then [MakeRow(c, name, email, citations)] else [],
           if missing || extra then [MakeRow(c, c.extract(email), email, citations)] else [])
  }

  /** The rows the loop of main.py:170-208 appends while running over `emails`. */
  function EmailSheets(c: Classifiers, name: string, missing: bool, first: Option<string>, similar: set<string>, citations: int, emails: seq<string>): Sheets
  {
    if emails == [] then NoSheets
    else
      var init := emails[..|emails| - 1];
      Concat(EmailSheets(c, name, missing, first, similar, citations, init),
             EmailStep(c, name, missing, first, similar, citations, emails[|emails| - 1]))
  }

  /** The rows one author record contributes (main.py:151-208). */
  function AuthorSheets(c: Classifiers, rec: Record): Sheets {
    var name := CleanName(rec.name);
    var valid := ValidEmails(ParseEmails(rec.allEmails));
    var first := if valid == [] then None else Some(valid[0]);
    EmailSheets(c, name, IsMissingName(name), first, ParseSimilar(rec.similarEmails), rec.citations, valid)
  }

  /** The rows one author record contributes in main.py. */
  function MainAuthorSheets(rec: Record): Sheets {
    AuthorSheets(MainClassifiers, rec)
  }

  /**
    The three row lists after the loop over the input rows has seen
    `records`, each record contributing `author(record)` (main.py:149,
    backup.py:283).
  */
  function AppendedSheets(author: Record -> Sheets, records: seq<Record>): Sheets {
    if records == [] then NoSheets
    else Concat(AppendedSheets(author, records[..|records| - 1]), author(records[|records| - 1]))
  }

  /** `drop_duplicates("Email")` then `sort_values("Citations", ascending=False)` on each table (main.py:213-219). */
  function Tidy(s: Sheets): Sheets {
    Sheets(DedupThenSort(s.all, EmailOf, CitationsOf),
           DedupThenSort(s.similar, EmailOf, CitationsOf),
           DedupThenSort(s.extracted, EmailOf, CitationsOf))
  }

  /** What a finished table looks like: sorted by Citations, highest first, and one row per Email. */
  predicate Finished(table: seq<Row>) {
    SortedDesc(table, CitationsOf) && DistinctKeys(table, EmailOf)
  }

  /** The body of the loop of main.py:170-208: the rows appended for one valid email. */
  method EmailRows(originalName: string, nameMissing: bool, firstEmail: Option<string>, similarEmails: set<string>, citations: int, email: string)
    returns (allRow: seq<Row>, similarRow: seq<Row>, extractedRow: seq<Row>)
    ensures Sheets(allRow, similarRow, extractedRow) == EmailStep(MainClassifiers, originalName, nameMissing, firstEmail, similarEmails, citations, email)
  {
    var domain := DomainOf(email);
    var country := MainCountry(domain);
    var isSimilar := email in similarEmails;
    var isExtra := firstEmail != Some(email);
    var sheet1Name := if !isExtra then originalName else "None";
    allRow := [Row(Some(sheet1Name), email, domain, country, citations)];
    similarRow, extractedRow := [], [];
    if isSimilar {
      similarRow := [Row(Some(originalName), email, domain, country, citations)];
    }
    if nameMissing || isExtra {
      var extractedName := ExtractNameFromEmail(email);
      extractedRow := [Row(Some(extractedName), email, domain, country, citations)];
    }
  }

  /** The loop of main.py:170-208 over an author's valid emails. */
  method ValidEmailRows(originalName: string, nameMissing: bool, firstEmail: Option<string>, similarEmails: set<string>, citations: int, validEmails: seq<string>)
    returns (allRows: seq<Row>, similarRows: seq<Row>, extractedRows: seq<Row>)
    ensures Sheets(allRows, similarRows, extractedRows)
      == EmailSheets(MainClassifiers, originalName, nameMissing, firstEmail, similarEmails, citations, validEmails)
  {
    allRows, similarRows, extractedRows := [], [], [];
    for j := 0 to |validEmails|
      invariant Sheets(allRows, similarRows, extractedRows)
        == EmailSheets(MainClassifiers, originalName, nameMissing, firstEmail, similarEmails, citations, validEmails[..j])
    {
      EmailSheetsSnoc(MainClassifiers, originalName, nameMissing, firstEmail, similarEmails, citations, validEmails, j);
      var a, s, e := EmailRows(originalName, nameMissing, firstEmail, similarEmails, citations, validEmails[j]);
      allRows, similarRows, extractedRows := allRows + a, similarRows + s, extractedRows + e;
    }
    assert validEmails[..|validEmails|] == validEmails;
  }

  /** The body of the loop of main.py:149-208: the rows appended for one input row. */
  method AuthorRows(row: Record) returns (allRows: seq<Row>, similarRows: seq<Row>, extractedRows: seq<Row>)
    ensures Sheets(allRows, similarRows, extractedRows) == MainAuthorSheets(row)
  {
    var originalName := CleanName(row.name);
    var citations := row.citations;
    var nameMissing := IsMissingName(originalName);
    var allEmails := ParseEmails(row.allEmails);
    var similarEmails := ParseSimilar(row.similarEmails);
    var validEmails := ValidEmails(allEmails);
    var firstEmail := if validEmails == [] then None else Some(validEmails[0]);
    allRows, similarRows, extractedRows := ValidEmailRows(originalName, nameMissing, firstEmail, similarEmails, citations, validEmails);
  }

  /**
    main.py:145-219 without the file handling: the loop that appends the
    rows of every input row, then the deduplication and the sort of each
    table.
  */
  method ProcessExcel(records: seq<Record>) returns (allDf: seq<Row>, similarDf: seq<Row>, extractedDf: seq<Row>)
    ensures Sheets(allDf, similarDf, extractedDf) == Tidy(AppendedSheets(MainAuthorSheets, records))
    ensures Finished(allDf) && Finished(similarDf) && Finished(extractedDf)
  {
    var allRows: seq<Row> := [];
    var similarRows: seq<Row> := [];
    var extractedRows: seq<Row> := [];
    for i := 0 to |records|
      invariant Sheets(allRows, similarRows, extractedRows) == AppendedSheets(MainAuthorSheets, records[..i])
    {
      AppendedSnoc(MainAuthorSheets, records, i);
      var a, s, e := AuthorRows(records[i]);
      allRows, similarRows, extractedRows := allRows + a, similarRows + s, extractedRows + e;
    }
    assert records[..|records|] == records;
    allDf := SortDesc(DropDuplicates(allRows, EmailOf), CitationsOf);
    similarDf := SortDesc(DropDuplicates(similarRows, EmailOf), CitationsOf);
    extractedDf := SortDesc(DropDuplicates(extractedRows, EmailOf), CitationsOf);
    DedupThenSortShape(allRows, EmailOf, CitationsOf);
    DedupThenSortShape(similarRows, EmailOf, CitationsOf);
    DedupThenSortShape(extractedRows, EmailOf, CitationsOf);
  }

  // ---------------------------------------------------------------------
  // The rows of one author
  // ---------------------------------------------------------------------

  /** One more email adds that email's rows. */
  lemma EmailSheetsSnoc(c: Classifiers, name: string, missing: bool, first: Option<string>, similar: set<string>, citations: int, emails: seq<string>, j: nat)
    requires j < |emails|
    ensures EmailSheets(c, name, missing, first, similar, citations, emails[..j + 1])
      == Concat(EmailSheets(c, name, missing, first, similar, citations, emails[..j]),
                EmailStep(c, name, missing, first, similar, citations, emails[j]))
  {
    assert emails[..j + 1][..j] == emails[..j];
  }

  /** One more record adds that record's rows. */
  lemma AppendedSnoc(author: Record -> Sheets, records: seq<Record>, i: nat)
    requires i < |records|
    ensures AppendedSheets(author, records[..i + 1]) == Concat(AppendedSheets(author, records[..i]), author(records[i]))
  {
    assert records[..i + 1][..i] == records[..i];
  }

  /**
    All_Clean_Emails gets one row per valid email, in order; its Name is the
    author's name when the email equals the first valid email and "None"
    otherwise, so a repeat of the first email is not an extra one.
  */
  lemma {:induction false} EmailSheetsAll(c: Classifiers, name: string, missing: bool, first: Option<string>, similar: set<string>, citations: int, emails: seq<string>)
    ensures |EmailSheets(c, name, missing, first, similar, citations, emails).all| == |emails|
    ensures forall k :: 0 <= k < |emails| ==>
      EmailSheets(c, name, missing, first, similar, citations, emails).all[k]
        == MakeRow(c, if first == Some(emails[k]) then name else "None", emails[k], citations)
  {
    if emails != [] {
      var init := emails[..|emails| - 1];
      EmailSheetsAll(c, name, missing, first, similar, citations, init);
      var s := EmailSheets(c, name, missing, first, similar, citations, emails);
      var p := EmailSheets(c, name, missing, first, similar, citations, init);
      var last := emails[|emails| - 1];
      assert s.all == p.all + [MakeRow(c, if first == Some(last) then name else "None", last, citations)];
      forall k | 0 <= k < |emails|
        ensures s.all[k] == MakeRow(c, if first == Some(emails[k]) then name else "None", emails[k], citations)
      {
        if k < |init| {
          assert emails[k] == init[k];
        }
      }
    }
  }

  /**
    Similar_Name_Emails gets a row, named after the author, exactly for the
    valid emails that are listed as similar (compared as written).
  */
  lemma {:induction false} EmailSheetsSimilar(c: Classifiers, name: string, missing: bool, first: Option<string>, similar: set<string>, citations: int, emails: seq<string>)
    ensures forall r | r in EmailSheets(c, name, missing, first, similar, citations, emails).similar ::
      r.email in emails && r.email in similar && r == MakeRow(c, name, r.email, citations)
    ensures forall k | 0 <= k < |emails| && emails[k] in similar ::
      MakeRow(c, name, emails[k], citations) in EmailSheets(c, name, missing, first, similar, citations, emails).similar
  {
    if emails != [] {
      var init := emails[..|emails| - 1];
      EmailSheetsSimilar(c, name, missing, first, similar, citations, init);
      var s := EmailSheets(c, name, missing, first, similar, citations, emails);
      var p := EmailSheets(c, name, missing, first, similar, citations, init);
      assert s.similar == p.similar + EmailStep(c, name, missing, first, similar, citations, emails[|emails| - 1]).similar;
      forall r | r in s.similar ensures r.email in emails && r.email in similar && r == MakeRow(c, name, r.email, citations) {
        if r in p.similar {
          var k :| 0 <= k < |init| && init[k] == r.email;
          assert emails[k] == init[k];
        }
      }
      forall k | 0 <= k < |emails| && emails[k] in similar
        ensures MakeRow(c, name, emails[k], citations) in s.similar
      {
        if k < |init| {
          assert emails[k] == init[k];
        }
      }
    }
  }

  /**
    AI_Processed_Emails gets a row exactly for the valid emails seen while
    the name is missing or that differ from the first valid email; its Name
    is what the rule-based extractor makes of the email ("" when nothing).
  */
  lemma {:induction false} EmailSheetsExtracted(c: Classifiers, name: string, missing: bool, first: Option<string>, similar: set<string>, citations: int, emails: seq<string>)
    ensures forall r | r in EmailSheets(c, name, missing, first, similar, citations, emails).extracted ::
      r.email in emails && (missing || first != Some(r.email)) && r == MakeRow(c, c.extract(r.email), r.email, citations)
    ensures forall k | 0 <= k < |emails| && (missing || first != Some(emails[k])) ::
      MakeRow(c, c.extract(emails[k]), emails[k], citations) in EmailSheets(c, name, missing, first, similar, citations, emails).extracted
  {
    if emails != [] {
      var init := emails[..|emails| - 1];
      EmailSheetsExtracted(c, name, missing, first, similar, citations, init);
      var s := EmailSheets(c, name, missing, first, similar, citations, emails);
      var p := EmailSheets(c, name, missing, first, similar, citations, init);
      assert s.extracted == p.extracted + EmailStep(c, name, missing, first, similar, citations, emails[|emails| - 1]).extracted;
      forall r | r in s.extracted
        ensures r.email in emails && (missing || first != Some(r.email)) && r == MakeRow(c, c.extract(r.email), r.email, citations)
      {
        if r in p.extracted {
          var k :| 0 <= k < |init| && init[k] == r.email;
          assert emails[k] == init[k];
        }
      }
      forall k | 0 <= k < |emails| && (missing || first != Some(emails[k]))
        ensures MakeRow(c, c.extract(emails[k]), emails[k], citations) in s.extracted
      {
        if k < |init| {
          assert emails[k] == init[k];
        }
      }
    }
  }

  /**
    The first valid email of an author keeps the cleaned name in
    All_Clean_Emails, and is sent to the extractor only when that name is
    missing; every other valid email is shown as "None" there and is always
    sent to the extractor.
  */
  lemma FirstEmailKeepsName(c: Classifiers, rec: Record, k: nat)
    requires k < |ValidEmails(ParseEmails(rec.allEmails))|
    ensures var valid := ValidEmails(ParseEmails(rec.allEmails));
      var name := CleanName(rec.name);
      && |AuthorSheets(c, rec).all| == |valid|
      && AuthorSheets(c, rec).all[k].email == valid[k]
      && AuthorSheets(c, rec).all[k].name == Some(if valid[k] == valid[0] then name else "None")
      && ((IsMissingName(name) || valid[k] != valid[0])
          <==> exists r :: r in AuthorSheets(c, rec).extracted && r.email == valid[k])
  {
    var valid := ValidEmails(ParseEmails(rec.allEmails));
    var name := CleanName(rec.name);
    var similar := ParseSimilar(rec.similarEmails);
    var first := Some(valid[0]);
    EmailSheetsAll(c, name, IsMissingName(name), first, similar, rec.citations, valid);
    EmailSheetsExtracted(c, name, IsMissingName(name), first, similar, rec.citations, valid);
    if IsMissingName(name) || valid[k] != valid[0] {
      assert MakeRow(c, c.extract(valid[k]), valid[k], rec.citations) in AuthorSheets(c, rec).extracted;
    }
  }

  /** Every All_Clean_Emails row of an author is the row of one of the author's valid emails. */
  lemma AuthorRowOfValidEmail(c: Classifiers, rec: Record, r: Row) returns (name: string)
    requires r in AuthorSheets(c, rec).all
    ensures Usable(r.email) && r.email in ParseEmails(rec.allEmails)
    ensures r == MakeRow(c, name, r.email, rec.citations)
  {
    var emails := ParseEmails(rec.allEmails);
    var valid := ValidEmails(emails);
    var clean := CleanName(rec.name);
    var first := if valid == [] then None else Some(valid[0]);
    name := EmailSheetsRowOf(c, clean, IsMissingName(clean), first, ParseSimilar(rec.similarEmails), rec.citations, valid, r);
    ValidEmailsMember(emails, r.email);
  }

  /** Every All_Clean_Emails row is the row of one of the emails looped over. */
  lemma EmailSheetsRowOf(c: Classifiers, name: string, missing: bool, first: Option<string>, similar: set<string>, citations: int, emails: seq<string>, r: Row)
    returns (shown: string)
    requires r in EmailSheets(c, name, missing, first, similar, citations, emails).all
    ensures r.email in emails && r == MakeRow(c, shown, r.email, citations)
  {
    EmailSheetsAll(c, name, missing, first, similar, citations, emails);
    var k :| 0 <= k < |emails| && EmailSheets(c, name, missing, first, similar, citations, emails).all[k] == r;
    shown := if first == Some(emails[k]) then name else "None";
  }

  /** An email the filter keeps is usable and one of the inputs. */
  lemma {:induction false} ValidEmailsMember(emails: seq<string>, e: string)
    requires e in ValidEmails(emails)
    ensures Usable(e) && e in emails
  {
    ValidEmailsFilter(emails);
  }

  /**
    Every All_Clean_Emails row of an author holds a valid email, the Domain
    that follows its only '@', the country of that Domain and the author's
    Citations.
  */
  lemma AuthorRowsWellFormed(c: Classifiers, rec: Record, r: Row)
    requires r in AuthorSheets(c, rec).all
    ensures Usable(r.email) && r.email in ParseEmails(rec.allEmails)
    ensures r.email == LocalPart(r.email) + "@" + r.domain
    ensures forall j :: 0 <= j < |r.domain| ==> r.domain[j] != '@'
    ensures r.country == c.country(r.domain) && r.citations == rec.citations
  {
    var name := AuthorRowOfValidEmail(c, rec, r);
    RowOfValidEmail(c, name, r.email, rec.citations);
  }

  /** The row of a matched email holds the Domain after its only '@' and that Domain's country. */
  lemma RowOfValidEmail(c: Classifiers, name: string, email: string, citations: int)
    requires Matches(email)
    ensures var r := MakeRow(c, name, email, citations);
      && r.email == LocalPart(r.email) + "@" + r.domain
      && (forall j :: 0 <= j < |r.domain| ==> r.domain[j] != '@')
      && r.country == c.country(r.domain) && r.citations == citations && r.name == Some(name)
  {
    DomainOfMatched(email);
  }

  /**
    An author with a missing name and two different valid emails, neither
    listed as similar: both emails go to the extractor, no Similar_Name_Emails
    row is made, and the second email's All_Clean_Emails row shows "None".
  */
  lemma MissingNameTwoEmails(c: Classifiers, name: string, similar: set<string>, citations: int, e1: string, e2: string)
    requires e1 != e2 && e1 !in similar && e2 !in similar
    ensures var s := EmailSheets(c, name, true, Some(e1), similar, citations, [e1, e2]);
      && s.all == [MakeRow(c, name, e1, citations), MakeRow(c, "None", e2, citations)]
      && s.similar == []
      && s.extracted == [MakeRow(c, c.extract(e1), e1, citations), MakeRow(c, c.extract(e2), e2, citations)]
  {
    assert EmailSheets(c, name, true, Some(e1), similar, citations, []) == NoSheets;
    assert [e1][..0] == [];
    assert EmailSheets(c, name, true, Some(e1), similar, citations, [e1])
      == Concat(NoSheets, EmailStep(c, name, true, Some(e1), similar, citations, e1));
    assert [e1, e2][..1] == [e1];
  }

  // ---------------------------------------------------------------------
  // The rows of all authors and the finished tables
  // ---------------------------------------------------------------------

  /** Every appended row comes from the rows of one of the records. */
  lemma {:induction false} AppendedFromAuthor(author: Record -> Sheets, records: seq<Record>, r: Row)
    ensures r in AppendedSheets(author, records).all ==> exists i :: 0 <= i < |records| && r in author(records[i]).all
    ensures r in AppendedSheets(author, records).similar ==> exists i :: 0 <= i < |records| && r in author(records[i]).similar
    ensures r in AppendedSheets(author, records).extracted ==> exists i :: 0 <= i < |records| && r in author(records[i]).extracted
  {
    if records != [] {
      var init := records[..|records| - 1];
      AppendedFromAuthor(author, init, r);
      forall i | 0 <= i < |init| ensures records[i] == init[i] {
      }
    }
  }

  /** Every row a record contributes is appended. */
  lemma {:induction false} AuthorRowsAppended(author: Record -> Sheets, records: seq<Record>, i: nat, r: Row)
    requires i < |records|
    ensures r in author(records[i]).all ==> r in AppendedSheets(author, records).all
    ensures r in author(records[i]).similar ==> r in AppendedSheets(author, records).similar
    ensures r in author(records[i]).extracted ==> r in AppendedSheets(author, records).extracted
  {
    var init := records[..|records| - 1];
    if i < |init| {
      AuthorRowsAppended(author, init, i, r);
      assert records[i] == init[i];
    }
  }

  /**
    A finished table (main.py:213-219): sorted by Citations, highest first;
    one row per email; every row is the first row appended for its email;
    and every email of any appended row is there.
  */
  lemma FinishedTable(author: Record -> Sheets, records: seq<Record>, i: nat, r: Row)
    requires i < |records| && r in author(records[i]).all
    ensures Finished(Tidy(AppendedSheets(author, records)).all)
    ensures forall x | x in Tidy(AppendedSheets(author, records)).all ::
      exists m :: 0 <= m < |AppendedSheets(author, records).all| && AppendedSheets(author, records).all[m] == x
                  && FirstOfKey(AppendedSheets(author, records).all, EmailOf, m)
    ensures r.email in KeysOf(Tidy(AppendedSheets(author, records)).all, EmailOf)
  {
    var rows := AppendedSheets(author, records).all;
    DedupThenSortShape(rows, EmailOf, CitationsOf);
    AuthorRowsAppended(author, records, i, r);
    var m :| 0 <= m < |rows| && rows[m] == r;
    assert EmailOf(rows[m]) in KeysOf(rows, EmailOf);
  }
}
