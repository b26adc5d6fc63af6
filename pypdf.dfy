/**
 * The PyPDF pipeline: page through the bucket listing, keep the keys that
 * end in ".pdf" in any letter case, and write each PDF's text, page after
 * page, to `<folder>/<base name without its last four characters>.txt`.
 *
 * The listing pages and the PDF reader's output are parameters; the files
 * written are returned, in order, as `FileWrite`s.
 */
module PyPdf {
  import opened Wrappers
  import opened Strings
  import opened Storage

  /** The folder `extract_text_pypdf` writes to when called without one. */
  const ExtractDefaultFolder := "PyPDF_Extracted"
  /** The folder `process_all_pdfs` passes on when called without one. */
  const ProcessDefaultFolder := "PyPDF"

  /** One page of the paginated listing; `contents` is absent when the page has no "Contents". */
  datatype ListingPage = ListingPage(contents: Option<seq<string>>)

  function PageKeys(page: ListingPage): seq<string> {
    match page.contents
    case None => []
    case Some(keys) => keys
  }

  /** The keys of all pages, in page order. */
  function PagedKeys(pages: seq<ListingPage>): seq<string>
    decreases |pages|
  {
    if |pages| == 0 then []
    else PagedKeys(pages[..|pages| - 1]) + PageKeys(pages[|pages| - 1])
  }

  /** A key is listed exactly when some page holding "Contents" carries it. */
  lemma {:induction false} PagedKeysMembership(pages: seq<ListingPage>)
    ensures forall i, k :: 0 <= i < |pages| && k in PageKeys(pages[i]) ==> k in PagedKeys(pages)
    ensures forall k :: k in PagedKeys(pages) ==> exists i :: 0 <= i < |pages| && k in PageKeys(pages[i])
    decreases |pages|
  {
    if |pages| > 0 {
      var init := pages[..|pages| - 1];
      PagedKeysMembership(init);
      assert forall i :: 0 <= i < |init| ==> init[i] == pages[i];
    }
  }

  /** Listing a run of pages after another gives the first run's keys, then the second's. */
  lemma {:induction false} PagedKeysAppend(a: seq<ListingPage>, b: seq<ListingPage>)
    ensures PagedKeys(a + b) == PagedKeys(a) + PagedKeys(b)
    decreases |b|
  {
    if |b| == 0 {
      assert a + b == a;
    } else {
      var b' := b[..|b| - 1];
      assert (a + b)[..|a + b| - 1] == a + b';
      assert (a + b)[|a + b| - 1] == b[|b| - 1];
      PagedKeysAppend(a, b');
    }
  }

  /** `list_s3_objects`: the generator's output, collected. */
  method ListS3Objects(pages: seq<ListingPage>) returns (keys: seq<string>)
    ensures keys == PagedKeys(pages)
  {
    keys := [];
    var p := 0;
    while p < |pages|
      invariant 0 <= p <= |pages|
      invariant keys == PagedKeys(pages[..p])
    {
      var page := pages[p];
      if page.contents.Some? {
        var contents := page.contents.value;
        var k := 0;
        while k < |contents|
          invariant 0 <= k <= |contents|
          invariant keys == PagedKeys(pages[..p]) + contents[..k]
        {
          keys := keys + [contents[k]];
          assert contents[..k + 1] == contents[..k] + [contents[k]];
          k := k + 1;
        }
        assert contents[..k] == contents;
      }
      assert pages[..p + 1][..p] == pages[..p];
      p := p + 1;
    }
    assert pages[..p] == pages;
  }

  /** The texts concatenated with no separator. */
  function Concat(texts: seq<string>): string
    decreases |texts|
  {
    if |texts| == 0 then "" else Concat(texts[..|texts| - 1]) + texts[|texts| - 1]
  }

  /** The concatenation is empty exactly when every text is. */
  lemma {:induction false} ConcatEmpty(texts: seq<string>)
    ensures Concat(texts) == "" <==> forall i :: 0 <= i < |texts| ==> texts[i] == ""
    decreases |texts|
  {
    if |texts| > 0 {
      var init := texts[..|texts| - 1];
      ConcatEmpty(init);
      assert forall i :: 0 <= i < |init| ==> init[i] == texts[i];
    }
  }

  lemma {:induction false} ConcatAppend(a: seq<string>, b: seq<string>)
    ensures Concat(a + b) == Concat(a) + Concat(b)
    decreases |b|
  {
    if |b| == 0 {
      assert a + b == a;
    } else {
      var b', last := b[..|b| - 1], b[|b| - 1];
      var ab := a + b;
      assert ab[..|ab| - 1] == a + b';
      assert Concat(ab) == Concat(a + b') + last;
      ConcatAppend(a, b');
      assert Concat(b) == Concat(b') + last;
    }
  }

  /**
   * How many pages, from the first, the reader extracts before its first
   * error (`None` is a page whose extraction raises).
   */
  function ReadablePrefix(pages: seq<Option<string>>): (n: nat)
    ensures n <= |pages|
    ensures forall j :: 0 <= j < n ==> pages[j].Some?
    ensures n < |pages| ==> pages[n].None?
    decreases |pages|
  {
    if |pages| == 0 || pages[0].None? then 0 else 1 + ReadablePrefix(pages[1..])
  }

  function PageTexts(pages: seq<Option<string>>): seq<string>
    requires forall j :: 0 <= j < |pages| ==> pages[j].Some?
  {
    seq(|pages|, j requires 0 <= j < |pages| => pages[j].value)
  }

  /**
   * The text `extract_text_pypdf` writes: nothing when the reader cannot be
   * opened (`None`), otherwise the texts of the pages before the first page
   * that fails, concatenated in page order.
   */
  function ExtractedText(doc: Option<seq<Option<string>>>): string
  {
    match doc
    case None => ""
    case Some(pages) => Concat(PageTexts(pages[..ReadablePrefix(pages)]))
  }

  /** A document whose pages all read yields all their text; one that cannot be opened yields none. */
  lemma ExtractedTextWhole(doc: Option<seq<Option<string>>>)
    ensures doc.None? ==> ExtractedText(doc) == ""
    ensures doc.Some? && (forall j :: 0 <= j < |doc.value| ==> doc.value[j].Some?)
      ==> ExtractedText(doc) == Concat(PageTexts(doc.value))
  {
    if doc.Some? {
      assert doc.value[..|doc.value|] == doc.value;
    }
  }

  /**
   * A read error at page k stops the extraction but not the write: the text
   * written is that of the pages before k.
   */
  lemma ReadErrorKeepsEarlierText(pages: seq<Option<string>>, k: nat)
    requires k < |pages| && pages[k].None?
    requires forall j :: 0 <= j < k ==> pages[j].Some?
    ensures ExtractedText(Some(pages)) == Concat(PageTexts(pages[..k]))
  {
  }

  /** One more readable page appends its text to what the earlier pages gave. */
  lemma ExtractedTextAppendPage(pages: seq<Option<string>>, text: string)
    requires forall j :: 0 <= j < |pages| ==> pages[j].Some?
    ensures ExtractedText(Some(pages + [Some(text)])) == ExtractedText(Some(pages)) + text
  {
    var all := pages + [Some(text)];
    var texts := PageTexts(pages);
    assert ExtractedText(Some(pages)) == Concat(texts) by {
      ExtractedTextWhole(Some(pages));
    }
    assert ExtractedText(Some(all)) == Concat(texts + [text]) by {
      assert forall j :: 0 <= j < |all| ==> all[j].Some?;
      ExtractedTextWhole(Some(all));
      assert PageTexts(all) == texts + [text];
    }
    assert Concat(texts + [text]) == Concat(texts) + text by {
      ConcatAppend(texts, [text]);
      assert Concat([text]) == Concat([]) + text;
    }
  }

  /** `f'{base[:-4]}.txt'`: Python's slice leaves "" when the name is shorter than four characters. */
  function TextFileName(base: string): (r: string)
    ensures '/' !in base ==> '/' !in r
  {
    var stem := if |base| >= 4 then base[..|base| - 4] else "";
    assert forall i :: 0 <= i < |stem| ==> stem[i] == base[i];
    assert forall c :: c in stem + ".txt" ==> c in stem || c in ".txt";
    stem + ".txt"
  }

  /** The name of the text file written for a key. */
  function OutputFilename(key: string): (r: string)
    ensures '/' !in r
  {
    TextFileName(Basename(key))
  }

  /** A base name shorter than four characters gives the bare name ".txt". */
  lemma OutputFilenameShort(key: string)
    requires |Basename(key)| < 4
    ensures OutputFilename(key) == ".txt"
  {
  }

  /**
   * For a key the pipeline processes, the dropped four characters are the
   * extension, whatever its letter case: the text file is the base name's
   * stem followed by ".txt".
   */
  lemma OutputFilenameOfPdf(key: string)
    requires IsPdfKey(key)
    ensures var b := Basename(key);
      && |b| >= 4 && IsPdfKey(b)
      && OutputFilename(key) == b[..|b| - 4] + ".txt"
  {
    IsPdfKeyCases(key);
    var b := Basename(key);
    var n := |key|;
    assert forall j :: n - 4 <= j < n ==> key[j] != '/';
    assert b[|b| - 4..] == key[n - 4..];
    IsPdfKeyCases(b);
  }

  /** The file `extract_text_pypdf` writes for one key, whatever the reader did. */
  function PdfWrite(key: string, doc: Option<seq<Option<string>>>, outputFolder: string): FileWrite
  {
    FileWrite(PathJoin(outputFolder, OutputFilename(key)), ExtractedText(doc))
  }

  /**
   * The file written holds the extracted text under the output name,
   * directly inside the folder when the folder does not end in '/'.
   */
  lemma PdfWriteShape(key: string, doc: Option<seq<Option<string>>>, outputFolder: string)
    ensures PdfWrite(key, doc, outputFolder).content == ExtractedText(doc)
    ensures Basename(PdfWrite(key, doc, outputFolder).path) == OutputFilename(key)
    ensures |outputFolder| > 0 && outputFolder[|outputFolder| - 1] != '/'
      ==> PdfWrite(key, doc, outputFolder).path == outputFolder + "/" + OutputFilename(key)
  {
    BasenameOfJoin(outputFolder, OutputFilename(key));
    if |outputFolder| > 0 && outputFolder[|outputFolder| - 1] != '/' {
      PathJoinInside(outputFolder, OutputFilename(key));
    }
  }

  /**
   * `extract_text_pypdf`: accumulate the page texts until the first error,
   * then write them, even after an error.
   */
  method ExtractTextPypdf(key: string, outputFolder: string, doc: Option<seq<Option<string>>>) returns (w: FileWrite)
    ensures w == PdfWrite(key, doc, outputFolder)
  {
    var text := "";
    if doc.Some? {
      var pages := doc.value;
      var pageNum := 0;
      while pageNum < |pages| && pages[pageNum].Some?
        invariant 0 <= pageNum <= |pages|
        invariant forall j :: 0 <= j < pageNum ==> pages[j].Some?
        invariant text == Concat(PageTexts(pages[..pageNum]))
      {
        ExtractedTextWhole(Some(pages[..pageNum]));
        ExtractedTextAppendPage(pages[..pageNum], pages[pageNum].value);
        assert pages[..pageNum + 1] == pages[..pageNum] + [Some(pages[pageNum].value)];
        ExtractedTextWhole(Some(pages[..pageNum + 1]));
        text := text + pages[pageNum].value;
        pageNum := pageNum + 1;
      }
      if pageNum < |pages| {
        ReadErrorKeepsEarlierText(pages, pageNum);
      } else {
        assert pages[..pageNum] == pages;
        ExtractedTextWhole(Some(pages));
      }
    }
    w := FileWrite(PathJoin(outputFolder, OutputFilename(key)), text);
  }

  /** The file written for each of the given keys, in order. */
  function WritesFor(pdfs: seq<string>, reader: string -> Option<seq<Option<string>>>, outputFolder: string): (r: seq<FileWrite>)
    ensures |r| == |pdfs|
  {
    seq(|pdfs|, i requires 0 <= i < |pdfs| => PdfWrite(pdfs[i], reader(pdfs[i]), outputFolder))
  }

  lemma WritesForAppend(a: seq<string>, b: seq<string>, reader: string -> Option<seq<Option<string>>>, outputFolder: string)
    ensures WritesFor(a + b, reader, outputFolder) == WritesFor(a, reader, outputFolder) + WritesFor(b, reader, outputFolder)
  {
    var w, wa, wb := WritesFor(a + b, reader, outputFolder), WritesFor(a, reader, outputFolder), WritesFor(b, reader, outputFolder);
    forall i | 0 <= i < |w| ensures w[i] == (wa + wb)[i] {
      if i < |a| {
        assert (a + b)[i] == a[i];
      } else {
        assert (a + b)[i] == b[i - |a|];
      }
    }
  }

  /** The files the pipeline writes for the listed keys: one per PDF key, in listing order. */
  function PyPdfWrites(keys: seq<string>, reader: string -> Option<seq<Option<string>>>, outputFolder: string): (r: seq<FileWrite>)
    ensures |r| == |PdfKeys(keys)| <= |keys|
  {
    WritesFor(PdfKeys(keys), reader, outputFolder)
  }

  /**
   * The pipeline passes "PyPDF" in place of the extraction default
   * "PyPDF_Extracted": every file it writes lands directly in `PyPDF/`.
   */
  lemma PipelineFolder(keys: seq<string>, reader: string -> Option<seq<Option<string>>>)
    ensures var writes := PyPdfWrites(keys, reader, ProcessDefaultFolder);
      forall i :: 0 <= i < |writes| ==>
        writes[i].path == "PyPDF/" + OutputFilename(PdfKeys(keys)[i])
  {
    var pdfs := PdfKeys(keys);
    var writes := PyPdfWrites(keys, reader, ProcessDefaultFolder);
    forall i | 0 <= i < |pdfs|
      ensures writes[i].path == "PyPDF/" + OutputFilename(pdfs[i])
    {
      assert writes[i] == PdfWrite(pdfs[i], reader(pdfs[i]), ProcessDefaultFolder);
      PdfWriteShape(pdfs[i], reader(pdfs[i]), ProcessDefaultFolder);
    }
  }

  /**
   * Called alone, `extract_text_pypdf` writes under "PyPDF_Extracted/"; the
   * pipeline writes the same text to a different file, under "PyPDF/".
   */
  lemma DefaultFoldersDiffer(key: string, doc: Option<seq<Option<string>>>)
    ensures PdfWrite(key, doc, ExtractDefaultFolder).path == ExtractDefaultFolder + "/" + OutputFilename(key)
    ensures PdfWrite(key, doc, ProcessDefaultFolder).path == ProcessDefaultFolder + "/" + OutputFilename(key)
    ensures PdfWrite(key, doc, ExtractDefaultFolder).path != PdfWrite(key, doc, ProcessDefaultFolder).path
    ensures PdfWrite(key, doc, ExtractDefaultFolder).content == PdfWrite(key, doc, ProcessDefaultFolder).content
  {
    var name := OutputFilename(key);
    var a, b := PdfWrite(key, doc, ExtractDefaultFolder), PdfWrite(key, doc, ProcessDefaultFolder);
    assert a.path == ExtractDefaultFolder + "/" + name by {
      assert |ExtractDefaultFolder| == 15 && ExtractDefaultFolder[14] == 'd';
      PdfWriteShape(key, doc, ExtractDefaultFolder);
    }
    assert b.path == ProcessDefaultFolder + "/" + name by {
      assert |ProcessDefaultFolder| == 5 && ProcessDefaultFolder[4] == 'F';
      PdfWriteShape(key, doc, ProcessDefaultFolder);
    }
    assert |a.path| != |b.path| by {
      assert |ExtractDefaultFolder| == 15 && |ProcessDefaultFolder| == 5;
    }
  }

  lemma WritesForOneKey(key: string, reader: string -> Option<seq<Option<string>>>, outputFolder: string)
    ensures WritesFor(PdfKeys([key]), reader, outputFolder)
      == if IsPdfKey(key) then [PdfWrite(key, reader(key), outputFolder)] else []
  {
    assert [key][..0] == [];
    if IsPdfKey(key) {
      assert PdfKeys([key]) == [key];
      var w := WritesFor([key], reader, outputFolder);
      assert w[0] == PdfWrite(key, reader(key), outputFolder);
    } else {
      assert PdfKeys([key]) == [];
    }
  }

  /** Listing one more key adds its text file exactly when it is a PDF key. */
  lemma PyPdfWritesStep(keys: seq<string>, key: string, reader: string -> Option<seq<Option<string>>>, outputFolder: string)
    ensures PyPdfWrites(keys + [key], reader, outputFolder)
      == PyPdfWrites(keys, reader, outputFolder) + (if IsPdfKey(key) then [PdfWrite(key, reader(key), outputFolder)] else [])
  {
    var pdfs, single := PdfKeys(keys), PdfKeys([key]);
    assert PdfKeys(keys + [key]) == pdfs + single by {
      PdfKeysAppend(keys, [key]);
    }
    assert WritesFor(pdfs + single, reader, outputFolder)
      == WritesFor(pdfs, reader, outputFolder) + WritesFor(single, reader, outputFolder) by {
      WritesForAppend(pdfs, single, reader, outputFolder);
    }
    WritesForOneKey(key, reader, outputFolder);
  }

  /**
   * `process_all_pdfs`: one text file per listed PDF key, in listing order;
   * other keys are skipped.
   */
  method ProcessAllPdfs(pages: seq<ListingPage>, reader: string -> Option<seq<Option<string>>>, outputFolder: string)
    returns (writes: seq<FileWrite>)
    ensures writes == PyPdfWrites(PagedKeys(pages), reader, outputFolder)
  {
    var keys := ListS3Objects(pages);
    writes := [];
    var i := 0;
    while i < |keys|
      invariant 0 <= i <= |keys|
      invariant writes == PyPdfWrites(keys[..i], reader, outputFolder)
    {
      var key := keys[i];
      assert keys[..i + 1] == keys[..i] + [key];
      PyPdfWritesStep(keys[..i], key, reader, outputFolder);
      if IsPdfKey(key) {
        var w := ExtractTextPypdf(key, outputFolder, reader(key));
        writes := writes + [w];
      }
      i := i + 1;
    }
    assert keys[..i] == keys;
  }
}
