/** The watch loop of `extract.py` (`watch_and_process`) as a state machine:
    each tick lists the PDFs in the folder and, for every name not yet in
    `processed`, extracts a row, appends it to the CSV store and deletes the
    file; only when all three succeed is the name recorded. The folder
    listing, the PDF text and the outcome of the two file operations are
    inputs; sleeping between ticks and `KeyboardInterrupt` are left out. */
module Watch {
  import opened Wrappers
  import opened Text
  import opened Assoc
  import opened Extract

  /** One listed PDF: its name, what `process_pdf` returns for it (`None` when
      it raises), and whether the CSV append and the delete raise. */
  datatype PdfFile = PdfFile(name: string, row: Option<Row>, appendRaises: bool, unlinkRaises: bool)

  /** `processed`, the rows appended to the CSV store so far, and the folder's file names. */
  datatype WatchState = WatchState(processed: set<string>, store: seq<Row>, folder: set<string>)

  /** The listed file for a PDF whose text the PDF library extracts (`None`
      when opening it raises): its row is the one `process_pdf` returns. */
  function Listed(name: string, text: Option<string>, appendRaises: bool, unlinkRaises: bool): (f: PdfFile)
    ensures f.name == name && f.appendRaises == appendRaises && f.unlinkRaises == unlinkRaises
    ensures f.row.Some? <==> text.Some? && !HasBlankBlock(text.value)
    ensures f.row.Some? ==> f.row == Some(ProcessPdf(text.value, name).value)
    ensures f.row.Some? ==> Get(f.row.value, "num_respondents") == Some(Int(FilenameRespondents(name)))
  {
    var row := if text.None? then None
               else
                 var r := ProcessPdf(text.value, name);
                 if r.Failure? then None else Some(r.value);
    PdfFile(name, row, appendRaises, unlinkRaises)
  }

  /** The listed file the loop would see with the corrected extractor. */
  function ListedIntended(name: string, text: Option<string>, appendRaises: bool, unlinkRaises: bool): (f: PdfFile)
    ensures f.name == name && f.appendRaises == appendRaises && f.unlinkRaises == unlinkRaises
    ensures f.row.Some? <==> text.Some? && !HasBlankBlock(text.value)
    ensures f.row.Some? ==> f.row == Some(ProcessPdfIntended(text.value, name).value)
  {
    var row := if text.None? then None
               else
                 var r := ProcessPdfIntended(text.value, name);
                 if r.Failure? then None else Some(r.value);
    PdfFile(name, row, appendRaises, unlinkRaises)
  }

  /** The corrected extractor changes only the respondent count of what the loop stores:
      the same files have rows, and every other column agrees. */
  lemma ListedIntendedAgrees(name: string, text: Option<string>, appendRaises: bool, unlinkRaises: bool, k: string)
    requires k != "num_respondents"
    ensures var f := Listed(name, text, appendRaises, unlinkRaises);
            var g := ListedIntended(name, text, appendRaises, unlinkRaises);
            (f.row.Some? <==> g.row.Some?) && (f.row.Some? ==> Get(f.row.value, k) == Get(g.row.value, k))
  {
    if text.Some? {
      ProcessPdfIntendedAgrees(text.value, name, k);
    }
  }

  /** A digit-free file name makes the loop store a count of 0, whatever the report prints. */
  lemma ListedDropsPrintedCounts(name: string, text: string, appendRaises: bool, unlinkRaises: bool)
    requires forall i :: 0 <= i < |name| ==> !IsDigit(name[i])
    requires !HasBlankBlock(text)
    ensures var f := Listed(name, Some(text), appendRaises, unlinkRaises);
            f.row.Some? && Get(f.row.value, "num_respondents") == Some(Int(0))
  {
    ProcessPdfDropsPrintedCounts(text, name);
  }

  /** The body of the `for pdf_file in folder.glob("*.pdf")` loop for one file. */
  function HandleFile(st: WatchState, f: PdfFile): (r: WatchState)
    ensures st.processed <= r.processed && r.processed <= st.processed + {f.name}
    ensures st.store <= r.store && |r.store| <= |st.store| + 1
    ensures f.name in st.processed ==> r == st
    ensures f.name in r.processed - st.processed <==>
              f.name !in st.processed && f.row.Some? && !f.appendRaises && !f.unlinkRaises
    ensures f.name in r.processed - st.processed ==>
              r.store == st.store + [f.row.value] && r.folder == st.folder - {f.name}
    ensures f.row.None? || f.appendRaises ==> r == st
  {
    if f.name in st.processed then st
    else
      if f.row.None? || f.appendRaises then st
      else
        var appended := st.(store := st.store + [f.row.value]);
        if f.unlinkRaises then appended
        else appended.(processed := st.processed + {f.name}, folder := st.folder - {f.name})
  }

  /** One pass over the folder listing, in listing order. */
  function Tick(st: WatchState, listing: seq<PdfFile>): (r: WatchState)
    ensures st.processed <= r.processed
    ensures st.store <= r.store
    decreases |listing|
  {
    if |listing| == 0 then st else Tick(HandleFile(st, listing[0]), listing[1..])
  }

  /** Every name a pass records was listed, extracted, appended and deleted without an exception. */
  lemma {:induction false} TickRecordsOnlySuccesses(st: WatchState, listing: seq<PdfFile>, name: string)
    requires name in Tick(st, listing).processed - st.processed
    ensures exists i :: 0 <= i < |listing| && listing[i].name == name && listing[i].row.Some?
                        && !listing[i].appendRaises && !listing[i].unlinkRaises
    decreases |listing|
  {
    var mid := HandleFile(st, listing[0]);
    if name in mid.processed - st.processed {
      assert listing[0].name == name;
    } else {
      TickRecordsOnlySuccesses(mid, listing[1..], name);
      var i :| 0 <= i < |listing[1..]| && listing[1..][i].name == name && listing[1..][i].row.Some?
               && !listing[1..][i].appendRaises && !listing[1..][i].unlinkRaises;
      assert listing[i + 1] == listing[1..][i];
    }
  }

  /** The loop never consults `is_row_complete`: an incomplete row is appended like any other. */
  lemma IncompleteRowsAreStored(st: WatchState, f: PdfFile)
    requires f.name !in st.processed && f.row.Some? && !f.appendRaises
    requires !IsRowComplete(f.row.value)
    ensures HandleFile(st, f).store == st.store + [f.row.value]
    ensures !IsRowComplete(HandleFile(st, f).store[|st.store|])
  {
  }

  /** When the delete raises, the row is stored but the name is not recorded,
      so the next pass extracts and appends the same file again. */
  lemma FailedDeleteAppendsTwice(st: WatchState, f: PdfFile)
    requires f.name !in st.processed && f.row.Some? && !f.appendRaises && f.unlinkRaises
    ensures var once := HandleFile(st, f);
            f.name !in once.processed
            && HandleFile(once, f).store == st.store + [f.row.value, f.row.value]
  {
    var once := HandleFile(st, f);
    assert once.store + [f.row.value] == st.store + [f.row.value, f.row.value];
  }
}
