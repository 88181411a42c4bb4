/**
  The live `process_excel` of backup.py (backup.py:216-351). It differs
  from main.py's in three ways: every valid email keeps the author's name
  in All_Clean_Emails; AI_Processed_Emails gets a row for every valid email
  exactly when the name is missing, named by a language model whose answer
  is filtered (backup.py:248-261); and after the deduplication a Name that
  repeats in All_Clean_Emails is blanked out (backup.py:343).
*/
module BackupPipeline {
  import opened Text
  import opened Wrappers
  import opened Names
  import opened Tables
  import opened Pipeline

  /** The longest answer of the language model that is kept. */
  const MaxNameLength: nat := 40

  /**
    `llm_extract_name` (backup.py:248-261). `oracle(email)` is the text of
    the model's response to the fixed prompt followed by `email`; `None`
    stands for a call that raised. An empty answer, one longer than 40
    characters after stripping, or one holding a digit gives "".
  */
  function LlmExtractName(oracle: string -> Option<string>, email: string): (name: string)
    ensures name == "" || (oracle(email).Some? && name == Strip(oracle(email).value)
                           && |name| <= MaxNameLength && !HasDigit(name))
    ensures oracle(email).Some? && oracle(email).value != ""
            && |Strip(oracle(email).value)| <= MaxNameLength && !HasDigit(Strip(oracle(email).value))
            ==> name == Strip(oracle(email).value)
    ensures name == [] || (!IsSpace(name[0]) && !IsSpace(name[|name| - 1]))
  {
    match oracle(email)
    case None => ""
    case Some(text) =>
      if text == "" then ""
      else
        var name := Strip(text);
        if |name| > MaxNameLength || HasDigit(name) then "" else name
  }

  /** The heuristics of backup.py: main.py's country table and the language model. */
  function BackupClassifiers(oracle: string -> Option<string>): Classifiers {
    Classifiers(MainCountry, e => LlmExtractName(oracle, e))
  }

  /** One pass of the loop body of backup.py:292-333 for an email that passed the filter. */
  function BackupEmailStep(c: Classifiers, name: string, missing: bool, similar: set<string>, citations: int, email: string): Sheets
  {
    Sheets([MakeRow(c, name, email, citations)],
           if email in similar then [MakeRow(c, name, email, citations)] else [],
           if missing then [MakeRow(c, c.extract(email), email, citations)] else [])
  }

  /** One pass of the loop body of backup.py:292-333: nothing for an entry that fails the filter (`continue`). */
  function BackupEmailEntry(c: Classifiers, name: string, missing: bool, similar: set<string>, citations: int, email: string): Sheets
  {
    if Usable(email) then BackupEmailStep(c, name, missing, similar, citations, email) else NoSheets
  }

  /** The rows the loop of backup.py:292-333 appends while running over `emails`. */
  function BackupEmailSheets(c: Classifiers, name: string, missing: bool, similar: set<string>, citations: int, emails: seq<string>): Sheets
  {
    if emails == [] then NoSheets
    else
      Concat(BackupEmailSheets(c, name, missing, similar, citations, emails[..|emails| - 1]),
             BackupEmailEntry(c, name, missing, similar, citations, emails[|emails| - 1]))
  }

  /** The rows one author record contributes (backup.py:285-333). */
  function BackupAuthorSheets(c: Classifiers, rec: Record): Sheets {
    var name := BackupCleanName(rec.name);
    BackupEmailSheets(c, name, BackupIsMissingName(name), ParseSimilar(rec.similarEmails), rec.citations,
                      ParseEmails(rec.allEmails))
  }

  /** The rows one author record contributes in backup.py, given the model's answers. */
  function BackupAuthor(oracle: string -> Option<string>): Record -> Sheets {
    rec => BackupAuthorSheets(BackupClassifiers(oracle), rec)
  }

  /**
    backup.py:337-347: `drop_duplicates("Email")` on each table, then the
    repeated Names of All_Clean_Emails are masked, then each table is sorted
    by Citations, highest first.
  */
  function BackupTidy(s: Sheets): Sheets {
    Sheets(SortDesc(MaskRepeatedNames(DropDuplicates(s.all, EmailOf)), CitationsOf),
           DedupThenSort(s.similar, EmailOf, CitationsOf),
           DedupThenSort(s.extracted, EmailOf, CitationsOf))
  }

  /** The loop body of backup.py:294-333 for one entry of `all_emails`. */
  method BackupEmailRows(oracle: string -> Option<string>, originalName: string, similarEmails: set<string>, citations: int, email: string)
    returns (allRow: seq<Row>, similarRow: seq<Row>, extractedRow: seq<Row>)
    ensures Sheets(allRow, similarRow, extractedRow)
      == BackupEmailEntry(BackupClassifiers(oracle), originalName, BackupIsMissingName(originalName), similarEmails, citations, email)
  {
    allRow, similarRow, extractedRow := [], [], [];
    if !Usable(email) {
      return;
    }
    var domain := DomainOf(email);
    var country := MainCountry(domain);
    var isSimilar := email in similarEmails;
    allRow := [Row(Some(originalName), email, domain, country, citations)];
    if isSimilar {
      similarRow := [Row(Some(originalName), email, domain, country, citations)];
    }
    if BackupIsMissingName(originalName) {
      var extractedName := LlmExtractName(oracle, email);
      extractedRow := [Row(Some(extractedName), email, domain, country, citations)];
    }
  }

  /** The loop of backup.py:292-333 over an author's parsed emails. */
  method BackupEmailLoop(oracle: string -> Option<string>, originalName: string, similarEmails: set<string>, citations: int, allEmails: seq<string>)
    returns (allRows: seq<Row>, similarRows: seq<Row>, extractedRows: seq<Row>)
    ensures Sheets(allRows, similarRows, extractedRows)
      == BackupEmailSheets(BackupClassifiers(oracle), originalName, BackupIsMissingName(originalName), similarEmails, citations, allEmails)
  {
    allRows, similarRows, extractedRows := [], [], [];
    for j := 0 to |allEmails|
      invariant Sheets(allRows, similarRows, extractedRows)
        == BackupEmailSheets(BackupClassifiers(oracle), originalName, BackupIsMissingName(originalName), similarEmails, citations, allEmails[..j])
    {
      BackupEmailSheetsSnoc(BackupClassifiers(oracle), originalName, BackupIsMissingName(originalName), similarEmails, citations, allEmails, j);
      var a, s, e := BackupEmailRows(oracle, originalName, similarEmails, citations, allEmails[j]);
      allRows, similarRows, extractedRows := allRows + a, similarRows + s, extractedRows + e;
    }
    assert allEmails[..|allEmails|] == allEmails;
  }

  /** The body of the loop of backup.py:283-333: the rows appended for one input row. */
  method BackupAuthorRows(oracle: string -> Option<string>, row: Record)
    returns (allRows: seq<Row>, similarRows: seq<Row>, extractedRows: seq<Row>)
    ensures Sheets(allRows, similarRows, extractedRows) == BackupAuthor(oracle)(row)
  {
    var originalName := BackupCleanName(row.name);
    var citations := row.citations;
    var allEmails := ParseEmails(row.allEmails);
    var similarEmails := ParseSimilar(row.similarEmails);
    allRows, similarRows, extractedRows := BackupEmailLoop(oracle, originalName, similarEmails, citations, allEmails);
  }

  /**
    backup.py:266-347 without the file handling: the loop over the input
    rows, then deduplication, masking of repeated names and sorting.
  */
  method BackupProcessExcel(oracle: string -> Option<string>, records: seq<Record>)
    returns (allDf: seq<Row>, similarDf: seq<Row>, extractedDf: seq<Row>)
    ensures Sheets(allDf, similarDf, extractedDf) == BackupTidy(AppendedSheets(BackupAuthor(oracle), records))
    ensures Finished(allDf) && PresentNamesDistinct(allDf)
    ensures Finished(similarDf) && Finished(extractedDf)
  {
    var allRows: seq<Row> := [];
    var similarRows: seq<Row> := [];
    var extractedRows: seq<Row> := [];
    for i := 0 to |records|
      invariant Sheets(allRows, similarRows, extractedRows) == AppendedSheets(BackupAuthor(oracle), records[..i])
    {
      AppendedSnoc(BackupAuthor(oracle), records, i);
      var a, s, e := BackupAuthorRows(oracle, records[i]);
      allRows, similarRows, extractedRows := allRows + a, similarRows + s, extractedRows + e;
    }
    assert records[..|records|] == records;
    var deduped := DropDuplicates(allRows, EmailOf);
    var masked := MaskRepeatedNames(deduped);
    allDf := SortDesc(masked, CitationsOf);
    similarDf := SortDesc(DropDuplicates(similarRows, EmailOf), CitationsOf);
    extractedDf := SortDesc(DropDuplicates(extractedRows, EmailOf), CitationsOf);
    MaskedTableShape(allRows);
    DedupThenSortShape(similarRows, EmailOf, CitationsOf);
    DedupThenSortShape(extractedRows, EmailOf, CitationsOf);
  }

  // ---------------------------------------------------------------------
  // The rows of one author
  // ---------------------------------------------------------------------

  /** One more entry adds that entry's rows, if any. */
  lemma BackupEmailSheetsSnoc(c: Classifiers, name: string, missing: bool, similar: set<string>, citations: int, emails: seq<string>, j: nat)
    requires j < |emails|
    ensures BackupEmailSheets(c, name, missing, similar, citations, emails[..j + 1])
      == Concat(BackupEmailSheets(c, name, missing, similar, citations, emails[..j]),
                BackupEmailEntry(c, name, missing, similar, citations, emails[j]))
  {
    assert emails[..j + 1][..j] == emails[..j];
  }

  /**
    All_Clean_Emails gets one row per entry that passes the filter, in
    order, each named after the author.
  */
  lemma {:induction false} BackupEmailSheetsAll(c: Classifiers, name: string, missing: bool, similar: set<string>, citations: int, emails: seq<string>)
    ensures |BackupEmailSheets(c, name, missing, similar, citations, emails).all| == |ValidEmails(emails)|
    ensures forall k :: 0 <= k < |ValidEmails(emails)| ==>
      BackupEmailSheets(c, name, missing, similar, citations, emails).all[k] == MakeRow(c, name, ValidEmails(emails)[k], citations)
  {
    if emails != [] {
      var init := emails[..|emails| - 1];
      BackupEmailSheetsAll(c, name, missing, similar, citations, init);
    }
  }

  /**
    Similar_Name_Emails gets a row, named after the author, exactly for the
    entries that pass the filter and are listed as similar.
  */
  lemma {:induction false} BackupEmailSheetsSimilar(c: Classifiers, name: string, missing: bool, similar: set<string>, citations: int, emails: seq<string>)
    ensures forall r | r in BackupEmailSheets(c, name, missing, similar, citations, emails).similar ::
      r.email in emails && Usable(r.email) && r.email in similar && r == MakeRow(c, name, r.email, citations)
    ensures forall k | 0 <= k < |emails| && Usable(emails[k]) && emails[k] in similar ::
      MakeRow(c, name, emails[k], citations) in BackupEmailSheets(c, name, missing, similar, citations, emails).similar
  {
    if emails != [] {
      var init := emails[..|emails| - 1];
      BackupEmailSheetsSimilar(c, name, missing, similar, citations, init);
      var s := BackupEmailSheets(c, name, missing, similar, citations, emails);
      var p := BackupEmailSheets(c, name, missing, similar, citations, init);
      var last := emails[|emails| - 1];
      assert s.similar == p.similar + BackupEmailEntry(c, name, missing, similar, citations, last).similar;
      forall r | r in s.similar ensures r.email in emails && Usable(r.email) && r.email in similar && r == MakeRow(c, name, r.email, citations) {
        if r in p.similar {
          var k :| 0 <= k < |init| && init[k] == r.email;
          assert emails[k] == init[k];
        }
      }
      forall k | 0 <= k < |emails| && Usable(emails[k]) && emails[k] in similar
        ensures MakeRow(c, name, emails[k], citations) in s.similar
      {
        if k < |init| {
          assert emails[k] == init[k];
        }
      }
    }
  }

  /**
    AI_Processed_Emails gets a row for every entry that passes the filter
    when the name is missing, named by the extractor, and none otherwise.
  */
  lemma {:induction false} BackupEmailSheetsExtracted(c: Classifiers, name: string, missing: bool, similar: set<string>, citations: int, emails: seq<string>)
    ensures !missing ==> BackupEmailSheets(c, name, missing, similar, citations, emails).extracted == []
    ensures forall r | r in BackupEmailSheets(c, name, missing, similar, citations, emails).extracted ::
      r.email in emails && Usable(r.email) && r == MakeRow(c, c.extract(r.email), r.email, citations)
    ensures missing ==> forall k | 0 <= k < |emails| && Usable(emails[k]) ::
      MakeRow(c, c.extract(emails[k]), emails[k], citations) in BackupEmailSheets(c, name, missing, similar, citations, emails).extracted
  {
    if emails != [] {
      var init := emails[..|emails| - 1];
      BackupEmailSheetsExtracted(c, name, missing, similar, citations, init);
      var s := BackupEmailSheets(c, name, missing, similar, citations, emails);
      var p := BackupEmailSheets(c, name, missing, similar, citations, init);
      var last := emails[|emails| - 1];
      assert s.extracted == p.extracted + BackupEmailEntry(c, name, missing, similar, citations, last).extracted;
      forall r | r in s.extracted ensures r.email in emails && Usable(r.email) && r == MakeRow(c, c.extract(r.email), r.email, citations) {
        if r in p.extracted {
          var k :| 0 <= k < |init| && init[k] == r.email;
          assert emails[k] == init[k];
        }
      }
      if missing {
        forall k | 0 <= k < |emails| && Usable(emails[k])
          ensures MakeRow(c, c.extract(emails[k]), emails[k], citations) in s.extracted
        {
          if k < |init| {
            assert emails[k] == init[k];
          }
        }
      }
    }
  }

  /**
    The Name of every AI_Processed_Emails row of an author is either empty
    or the stripped answer of the language model for that row's email, at
    most 40 characters long and free of digits.
  */
  lemma BackupExtractedNames(oracle: string -> Option<string>, rec: Record, r: Row)
    requires r in BackupAuthor(oracle)(rec).extracted
    ensures r.name.Some?
    ensures var n := r.name.value;
      n == "" || (oracle(r.email).Some? && n == Strip(oracle(r.email).value) && |n| <= MaxNameLength && !HasDigit(n))
  {
    var c := BackupClassifiers(oracle);
    var name := BackupCleanName(rec.name);
    BackupEmailSheetsExtracted(c, name, BackupIsMissingName(name), ParseSimilar(rec.similarEmails), rec.citations,
                               ParseEmails(rec.allEmails));
    assert r.name == Some(LlmExtractName(oracle, r.email));
  }

  /**
    The two programs build All_Clean_Emails from the same emails: backup.py's
    loop with `continue` and main.py's pre-filtered list give rows for the
    same emails in the same order.
  */
  lemma BackupAllMatchesMainEmails(c: Classifiers, c2: Classifiers, rec: Record, k: nat)
    requires k < |BackupAuthorSheets(c, rec).all|
    ensures |BackupAuthorSheets(c, rec).all| == |AuthorSheets(c2, rec).all|
    ensures BackupAuthorSheets(c, rec).all[k].email == AuthorSheets(c2, rec).all[k].email
    ensures BackupAuthorSheets(c, rec).all[k].name == Some(BackupCleanName(rec.name))
  {
    var emails := ParseEmails(rec.allEmails);
    var valid := ValidEmails(emails);
    var name := BackupCleanName(rec.name);
    var similar := ParseSimilar(rec.similarEmails);
    var name2 := CleanName(rec.name);
    var first := if valid == [] then None else Some(valid[0]);
    assert BackupAuthorSheets(c, rec) == BackupEmailSheets(c, name, BackupIsMissingName(name), similar, rec.citations, emails);
    assert AuthorSheets(c2, rec) == EmailSheets(c2, name2, IsMissingName(name2), first, similar, rec.citations, valid);
    SameEmailsAsMain(c, c2, name, BackupIsMissingName(name), similar, rec.citations, emails,
                     name2, IsMissingName(name2), first, k);
  }

  /** The rows of the loop with `continue` and those of the loop over the pre-filtered emails, side by side. */
  lemma SameEmailsAsMain(c: Classifiers, c2: Classifiers, name: string, missing: bool, similar: set<string>, citations: int, emails: seq<string>,
                         name2: string, missing2: bool, first: Option<string>, k: nat)
    requires k < |BackupEmailSheets(c, name, missing, similar, citations, emails).all|
    ensures var b := BackupEmailSheets(c, name, missing, similar, citations, emails).all;
      var m := EmailSheets(c2, name2, missing2, first, similar, citations, ValidEmails(emails)).all;
      |b| == |m| && b[k].email == m[k].email && b[k].name == Some(name)
  {
    BackupEmailSheetsAll(c, name, missing, similar, citations, emails);
    EmailSheetsAll(c2, name2, missing2, first, similar, citations, ValidEmails(emails));
  }

  // ---------------------------------------------------------------------
  // The finished All_Clean_Emails table
  // ---------------------------------------------------------------------

  /**
    The finished All_Clean_Emails table of backup.py (backup.py:339-345):
    sorted by Citations, highest first; one row per email, with every email
    of the appended rows present; and no present Name on two rows.
  */
  lemma MaskedTableShape(rows: seq<Row>)
    ensures var t := SortDesc(MaskRepeatedNames(DropDuplicates(rows, EmailOf)), CitationsOf);
      && Finished(t)
      && KeysOf(t, EmailOf) == KeysOf(rows, EmailOf)
      && PresentNamesDistinct(t)
  {
    var d := DropDuplicates(rows, EmailOf);
    var m := MaskRepeatedNames(d);
    var t := SortDesc(m, CitationsOf);
    MaskKeepsEmails(d);
    PermutationKeepsDistinctKeys(m, t, EmailOf);
    PermutationKeepsKeys(m, t, EmailOf);
    MaskedPresentNamesDistinct(d);
    PermutationKeepsPresentNamesDistinct(m, t);
  }

  /**
    A Name that is the first of its kind once repeated emails are dropped
    is still shown, on its own row, in the finished table.
  */
  lemma MaskedTableKeepsFirstNames(rows: seq<Row>, i: nat)
    requires i < |DropDuplicates(rows, EmailOf)| && FirstOfKey(DropDuplicates(rows, EmailOf), NameOf, i)
    ensures DropDuplicates(rows, EmailOf)[i] in SortDesc(MaskRepeatedNames(DropDuplicates(rows, EmailOf)), CitationsOf)
  {
    var d := DropDuplicates(rows, EmailOf);
    var m := MaskRepeatedNames(d);
    MaskKeepsFirstName(d, i);
    assert m[i] in multiset(m);
  }
}
