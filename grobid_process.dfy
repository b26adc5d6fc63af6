/**
 * The Grobid pipeline: list the bucket's PDF keys, send each PDF to the
 * Grobid full-text service, keep each successful XML reply under `xml/`, and
 * flatten every XML file that parses into a text file under `txt/`.
 *
 * The bucket listing, the Grobid reply and the XML parser are parameters;
 * the files the script writes are returned, in order, as `FileWrite`s.
 */
module GrobidProcess {
  import opened Wrappers
  import opened Strings
  import opened Storage

  const XmlOutputDir := "xml"
  const TxtOutputDir := "txt"

  /**
   * `list_s3_objects`: the keys of the listing's `Contents` that end in ".pdf"
   * in any letter case, in listing order; a listing without `Contents` gives none.
   */
  function ListS3Objects(contents: Option<seq<string>>): (keys: seq<string>)
    ensures forall i :: 0 <= i < |keys| ==> IsPdfKey(keys[i])
    ensures contents.None? ==> keys == []
    ensures contents.Some? ==> forall k :: k in contents.value && IsPdfKey(k) ==> k in keys
    ensures contents.Some? ==> forall k :: k in keys ==> k in contents.value
  {
    match contents
    case None => []
    case Some(all) =>
      assert forall i :: 0 <= i < |all| && IsPdfKey(all[i]) ==> all[i] in PdfKeys(all);
      PdfKeys(all)
  }

  /** The key's base name with every lower-case ".pdf" removed, wherever it occurs. */
  function Stem(pdfKey: string): (r: string)
    ensures '/' !in r
  {
    ReplaceAllChars(Basename(pdfKey), ".pdf", "");
    ReplaceAll(Basename(pdfKey), ".pdf", "")
  }

  /** `Grobid_<stem>_combined<ext>`: the name the XML file and its text file share. */
  function GrobidName(stem: string, ext: string): (r: string)
    ensures '/' !in stem && '/' !in ext ==> '/' !in r
  {
    assert forall c :: c in "Grobid_" + stem + "_combined" + ext ==>
      c in "Grobid_" || c in stem || c in "_combined" || c in ext;
    "Grobid_" + stem + "_combined" + ext
  }

  lemma XmlExtensionHasNoSlash()
    ensures '/' !in ".xml"
  {
  }

  /** The XML file's name: the PDF's stem in the Grobid name template, with ".xml". */
  function XmlFilename(pdfKey: string): (r: string)
    ensures '/' !in r
  {
    XmlExtensionHasNoSlash();
    GrobidName(Stem(pdfKey), ".xml")
  }

  /** The XML file lands directly inside `xml/`. */
  function XmlFilepath(pdfKey: string): (r: string)
    ensures r == "xml/" + XmlFilename(pdfKey)
  {
    InsideXmlDir(XmlFilename(pdfKey));
    PathJoin(XmlOutputDir, XmlFilename(pdfKey))
  }

  lemma TxtExtensionHasNoSlash()
    ensures '/' !in ".txt"
  {
  }

  /** The text file's name: the XML file's base name with every ".xml" turned into ".txt". */
  function TxtFilename(xmlPath: string): (r: string)
    ensures '/' !in r
  {
    var base := Basename(xmlPath);
    TxtExtensionHasNoSlash();
    ReplaceAllChars(base, ".xml", ".txt");
    ReplaceAll(base, ".xml", ".txt")
  }

  /** The text file lands directly inside `txt/`. */
  function TxtFilepath(xmlPath: string): (r: string)
    ensures r == "txt/" + TxtFilename(xmlPath)
  {
    InsideTxtDir(TxtFilename(xmlPath));
    PathJoin(TxtOutputDir, TxtFilename(xmlPath))
  }

  lemma InsideXmlDir(name: string)
    requires '/' !in name
    ensures PathJoin(XmlOutputDir, name) == "xml/" + name
  {
    PathJoinInside(XmlOutputDir, name);
  }

  lemma InsideTxtDir(name: string)
    requires '/' !in name
    ensures PathJoin(TxtOutputDir, name) == "txt/" + name
  {
    PathJoinInside(TxtOutputDir, name);
  }

  /** The text extracted from the elements: every non-empty element text, in document order. */
  function ElementTexts(texts: seq<Option<string>>): (r: seq<string>)
    ensures |r| <= |texts|
    ensures forall i :: 0 <= i < |r| ==> |r[i]| > 0 && Some(r[i]) in texts
    ensures forall i :: 0 <= i < |texts| && texts[i].Some? && |texts[i].value| > 0 ==> texts[i].value in r
    decreases |texts|
  {
    if |texts| == 0 then []
    else
      var init := ElementTexts(texts[..|texts| - 1]);
      assert forall i :: 0 <= i < |texts| - 1 ==> texts[..|texts| - 1][i] == texts[i];
      var last := texts[|texts| - 1];
      if last.Some? && |last.value| > 0 then init + [last.value] else init
  }

  /** One element contributes its text exactly when that text is present and not empty. */
  lemma ElementTextsSingle(t: Option<string>)
    ensures ElementTexts([t]) == if t.Some? && |t.value| > 0 then [t.value] else []
  {
    assert [t][..0] == [];
  }

  /**
   * The texts of consecutive elements are those of each run in turn: with
   * `ElementTextsSingle` this fixes the order and the multiplicity of the
   * element texts, not only which texts occur.
   */
  lemma {:induction false} ElementTextsAppend(a: seq<Option<string>>, b: seq<Option<string>>)
    ensures ElementTexts(a + b) == ElementTexts(a) + ElementTexts(b)
    decreases |b|
  {
    if |b| == 0 {
      assert a + b == a;
    } else {
      var b' := b[..|b| - 1];
      assert (a + b)[..|a + b| - 1] == a + b';
      assert (a + b)[|a + b| - 1] == b[|b| - 1];
      ElementTextsAppend(a, b');
    }
  }

  /**
   * `'\n'.join(elem.text for elem in root.iter() if elem.text)`: with no
   * element text the file is empty; when no element text holds a newline, the
   * file splits back into exactly the non-empty element texts, one per line.
   */
  function XmlText(texts: seq<Option<string>>): (r: string)
    ensures ElementTexts(texts) == [] ==> r == ""
    ensures |ElementTexts(texts)| > 0 && (forall i :: 0 <= i < |texts| && texts[i].Some? ==> '\n' !in texts[i].value)
      ==> Split(r, '\n') == ElementTexts(texts)
  {
    var parts := ElementTexts(texts);
    if |parts| > 0 && (forall i :: 0 <= i < |texts| && texts[i].Some? ==> '\n' !in texts[i].value) then
      assert forall i :: 0 <= i < |parts| ==> '\n' !in parts[i] by {
        forall i | 0 <= i < |parts| ensures '\n' !in parts[i] {
          var j :| 0 <= j < |texts| && texts[j] == Some(parts[i]);
        }
      }
      SplitJoin(parts, '\n');
      Join(parts, "\n")
    else
      Join(parts, "\n")
  }

  /** Grobid's reply to one PDF. */
  datatype GrobidResponse = GrobidResponse(status: int, content: string)

  /**
   * `convert_xml_to_txt`: when the XML parses (to its elements' texts in
   * document order) the text file is written; a parse error is caught and
   * writes nothing.
   */
  function ConvertXmlToTxt(xmlPath: string, parsed: Option<seq<Option<string>>>): (r: seq<FileWrite>)
    ensures parsed.None? <==> r == []
    ensures parsed.Some? ==> r == [FileWrite(TxtFilepath(xmlPath), XmlText(parsed.value))]
  {
    match parsed
    case None => []
    case Some(texts) => [FileWrite(TxtFilepath(xmlPath), XmlText(texts))]
  }

  /**
   * The files written for one PDF: none unless Grobid answers 200; then the
   * reply itself, followed, exactly when it parses, by its element text.
   */
  function GrobidWrites(pdfKey: string, resp: GrobidResponse, parse: string -> Option<seq<Option<string>>>): seq<FileWrite>
  {
    if resp.status == 200 then
      [FileWrite(XmlFilepath(pdfKey), resp.content)] + ConvertXmlToTxt(XmlFilepath(pdfKey), parse(resp.content))
    else []
  }

  /** Replacing an extension in `<pre><stem><mid><ext>` touches only the stem and the extension when `pre` and `mid` cannot start a match. */
  lemma {:induction false} RenameBetween(pre: string, stem: string, mid: string, pat: string, rep: string)
    requires |pat| > 0 && |mid| > 0 && mid[0] !in pat
    requires forall i :: 0 <= i < |pre| ==> pre[i] != pat[0]
    requires forall i :: 0 <= i < |mid| ==> mid[i] != pat[0]
    ensures ReplaceAll(pre + (stem + (mid + pat)), pat, rep) == pre + (ReplaceAll(stem, pat, rep) + (mid + rep))
  {
    ReplaceAllPrepend(pre, stem + (mid + pat), pat, rep);
    assert (mid + pat)[0] == mid[0];
    ReplaceAllAppend(stem, mid + pat, pat, rep);
    ReplaceAllPrepend(mid, pat, pat, rep);
    assert IsPrefix(pat, pat);
    assert pat[|pat|..] == [];
  }

  /** Renaming ".xml" to ".txt" in an XML name touches only the stem and the extension. */
  lemma GrobidNameRenamed(stem: string)
    ensures ReplaceAll(GrobidName(stem, ".xml"), ".xml", ".txt")
      == GrobidName(ReplaceAll(stem, ".xml", ".txt"), ".txt")
  {
    assert GrobidName(stem, ".xml") == "Grobid_" + (stem + ("_combined" + ".xml"));
    RenameBetween("Grobid_", stem, "_combined", ".xml", ".txt");
    var renamed := ReplaceAll(stem, ".xml", ".txt");
    assert GrobidName(renamed, ".txt") == "Grobid_" + (renamed + ("_combined" + ".txt"));
  }

  /** The text path of the XML file `xml/Grobid_<stem>_combined.xml`. */
  lemma GrobidTxtPath(stem: string)
    requires '/' !in stem
    ensures TxtFilepath(PathJoin(XmlOutputDir, GrobidName(stem, ".xml")))
      == "txt/" + GrobidName(ReplaceAll(stem, ".xml", ".txt"), ".txt")
  {
    var name := GrobidName(stem, ".xml");
    BasenameOfJoin(XmlOutputDir, name);
    GrobidNameRenamed(stem);
    InsideTxtDir(TxtFilename(PathJoin(XmlOutputDir, name)));
  }

  /**
   * The text file of a PDF is named after its XML file: the same
   * `Grobid_..._combined` name, ".txt" for ".xml", under `txt/`. When the
   * stem itself holds no ".xml" the stem is carried over unchanged.
   */
  lemma TxtPathOfPdf(pdfKey: string)
    ensures TxtFilepath(XmlFilepath(pdfKey)) == "txt/" + GrobidName(ReplaceAll(Stem(pdfKey), ".xml", ".txt"), ".txt")
    ensures !Contains(Stem(pdfKey), ".xml") ==> TxtFilepath(XmlFilepath(pdfKey)) == "txt/" + GrobidName(Stem(pdfKey), ".txt")
  {
    var stem := Stem(pdfKey);
    GrobidTxtPath(stem);
    if !Contains(stem, ".xml") {
      ReplaceAllNoMatch(stem, ".xml", ".txt");
    }
  }

  lemma PdfExtensionRemoved(name: string)
    requires '.' !in name
    ensures ReplaceAll(name + ".pdf", ".pdf", "") == name
  {
    ReplaceAllPrepend(name, ".pdf", ".pdf", "");
    assert IsPrefix(".pdf", ".pdf");
    assert ReplaceAll(".pdf", ".pdf", "") == "" + ReplaceAll("", ".pdf", "");
  }

  /**
   * A key `<dir>/<name>.pdf` whose name holds no dot gives
   * `xml/Grobid_<name>_combined.xml` and `txt/Grobid_<name>_combined.txt`.
   */
  lemma PlainPdfKeyPaths(dir: string, name: string)
    requires dir == [] || dir[|dir| - 1] == '/'
    requires '/' !in name && '.' !in name
    ensures XmlFilepath(dir + name + ".pdf") == "xml/" + GrobidName(name, ".xml")
    ensures TxtFilepath(XmlFilepath(dir + name + ".pdf")) == "txt/" + GrobidName(name, ".txt")
  {
    var key := dir + name + ".pdf";
    assert Stem(key) == name by {
      assert key == dir + (name + ".pdf");
      BasenameAfterSlash(dir, name + ".pdf");
      PdfExtensionRemoved(name);
    }
    assert !Contains(name, ".xml") by {
      MissingCharNotContained(name, ".xml", '.');
    }
    InsideXmlDir(XmlFilename(key));
    TxtPathOfPdf(key);
  }

  /** The listing filter ignores case: a key ending in ".PDF" is processed. */
  lemma UpperCaseExtensionListed()
    ensures ListS3Objects(Some(["A.PDF"])) == ["A.PDF"]
  {
    IsPdfKeyCases("A.PDF");
    assert ["A.PDF"][..0] == [];
  }

  /**
   * The renaming does not ignore case: a base name without a lower-case
   * ".pdf" (one ending in ".PDF", say) is kept whole inside the XML name.
   */
  lemma UpperCaseExtensionKept(pdfKey: string)
    requires !Contains(Basename(pdfKey), ".pdf")
    ensures XmlFilename(pdfKey) == GrobidName(Basename(pdfKey), ".xml")
  {
    ReplaceAllNoMatch(Basename(pdfKey), ".pdf", "");
  }

  /**
   * The files for one PDF: none unless Grobid answers 200; then the reply
   * itself, to `xml/Grobid_<stem>_combined.xml`, followed, exactly when it
   * parses, by its element text, to the matching `txt/` file.
   */
  lemma GrobidWritesShape(pdfKey: string, resp: GrobidResponse, parse: string -> Option<seq<Option<string>>>)
    ensures var r := GrobidWrites(pdfKey, resp, parse);
      && (r == [] <==> resp.status != 200)
      && |r| <= 2 && (|r| == 2 <==> resp.status == 200 && parse(resp.content).Some?)
      && (|r| > 0 ==> r[0].content == resp.content)
      && (|r| == 2 ==> r[1].content == XmlText(parse(resp.content).value))
      && (|r| > 0 ==> r[0].path == "xml/" + XmlFilename(pdfKey))
      && (|r| == 2 ==> r[1].path == "txt/" + GrobidName(ReplaceAll(Stem(pdfKey), ".xml", ".txt"), ".txt"))
  {
    TxtPathOfPdf(pdfKey);
  }

  /** A path directly under `xml/` or `txt/`. */
  predicate InOutputDirs(path: string) {
    IsPrefix("xml/", path) || IsPrefix("txt/", path)
  }

  /** Every file written for one PDF lies inside `xml/` or `txt/`. */
  lemma GrobidWritesInOutputDirs(pdfKey: string, resp: GrobidResponse, parse: string -> Option<seq<Option<string>>>)
    ensures var r := GrobidWrites(pdfKey, resp, parse);
      forall i :: 0 <= i < |r| ==> InOutputDirs(r[i].path)
  {
    var r := GrobidWrites(pdfKey, resp, parse);
    GrobidWritesShape(pdfKey, resp, parse);
    forall i | 0 <= i < |r| ensures InOutputDirs(r[i].path) {
      if i == 0 {
        PrefixOfConcat("xml/", XmlFilename(pdfKey));
      } else {
        PrefixOfConcat("txt/", GrobidName(ReplaceAll(Stem(pdfKey), ".xml", ".txt"), ".txt"));
      }
    }
  }

  /** The files written for a sequence of keys, in key order. */
  function AllGrobidWrites(keys: seq<string>, grobid: string -> GrobidResponse, parse: string -> Option<seq<Option<string>>>): seq<FileWrite>
    decreases |keys|
  {
    if |keys| == 0 then []
    else
      var key := keys[|keys| - 1];
      AllGrobidWrites(keys[..|keys| - 1], grobid, parse) + GrobidWrites(key, grobid(key), parse)
  }

  /** At most two files per key, all inside `xml/` or `txt/`. */
  lemma {:induction false} AllGrobidWritesBounds(keys: seq<string>, grobid: string -> GrobidResponse, parse: string -> Option<seq<Option<string>>>)
    ensures var r := AllGrobidWrites(keys, grobid, parse);
      |r| <= 2 * |keys| && forall i :: 0 <= i < |r| ==> InOutputDirs(r[i].path)
    decreases |keys|
  {
    if |keys| > 0 {
      var key := keys[|keys| - 1];
      AllGrobidWritesBounds(keys[..|keys| - 1], grobid, parse);
      GrobidWritesShape(key, grobid(key), parse);
      GrobidWritesInOutputDirs(key, grobid(key), parse);
    }
  }

  /** The writes for a concatenation of listings are those of each listing in turn. */
  lemma {:induction false} AllGrobidWritesAppend(a: seq<string>, b: seq<string>, grobid: string -> GrobidResponse, parse: string -> Option<seq<Option<string>>>)
    ensures AllGrobidWrites(a + b, grobid, parse) == AllGrobidWrites(a, grobid, parse) + AllGrobidWrites(b, grobid, parse)
    decreases |b|
  {
    if |b| == 0 {
      assert a + b == a;
    } else {
      var b' := b[..|b| - 1];
      var key := b[|b| - 1];
      var last := GrobidWrites(key, grobid(key), parse);
      assert AllGrobidWrites(a + b, grobid, parse) == AllGrobidWrites(a + b', grobid, parse) + last by {
        assert (a + b)[..|a + b| - 1] == a + b';
        assert (a + b)[|a + b| - 1] == key;
      }
      assert AllGrobidWrites(b, grobid, parse) == AllGrobidWrites(b', grobid, parse) + last;
      AllGrobidWritesAppend(a, b', grobid, parse);
      ConcatAssoc(AllGrobidWrites(a, grobid, parse), AllGrobidWrites(b', grobid, parse), last);
    }
  }

  lemma ConcatAssoc<T>(x: seq<T>, y: seq<T>, z: seq<T>)
    ensures (x + y) + z == x + (y + z)
  {
  }

  /** On a 200 reply the XML file is written first, then whatever the conversion writes. */
  lemma GrobidWritesOnSuccess(pdfKey: string, resp: GrobidResponse, parse: string -> Option<seq<Option<string>>>)
    requires resp.status == 200
    ensures GrobidWrites(pdfKey, resp, parse)
      == [FileWrite(XmlFilepath(pdfKey), resp.content)] + ConvertXmlToTxt(XmlFilepath(pdfKey), parse(resp.content))
  {
  }

  lemma AllGrobidWritesStep(keys: seq<string>, i: nat, grobid: string -> GrobidResponse, parse: string -> Option<seq<Option<string>>>)
    requires i < |keys|
    ensures AllGrobidWrites(keys[..i + 1], grobid, parse)
      == AllGrobidWrites(keys[..i], grobid, parse) + GrobidWrites(keys[i], grobid(keys[i]), parse)
  {
    assert keys[..i + 1][..i] == keys[..i];
  }

  /**
   * `process_files_with_grobid`: one request per listed PDF, in listing
   * order, writing the files `AllGrobidWrites` describes.
   */
  method ProcessFilesWithGrobid(contents: Option<seq<string>>, grobid: string -> GrobidResponse, parse: string -> Option<seq<Option<string>>>)
    returns (writes: seq<FileWrite>)
    ensures writes == AllGrobidWrites(ListS3Objects(contents), grobid, parse)
  {
    var pdfFiles := ListS3Objects(contents);
    writes := [];
    var i := 0;
    while i < |pdfFiles|
      invariant 0 <= i <= |pdfFiles|
      invariant writes == AllGrobidWrites(pdfFiles[..i], grobid, parse)
    {
      var pdfFile := pdfFiles[i];
      var response := grobid(pdfFile);
      ghost var before := writes;
      if response.status == 200 {
        var xmlFilepath := XmlFilepath(pdfFile);
        writes := writes + [FileWrite(xmlFilepath, response.content)];
        writes := writes + ConvertXmlToTxt(xmlFilepath, parse(response.content));
        assert writes == before + GrobidWrites(pdfFile, response, parse) by {
          GrobidWritesOnSuccess(pdfFile, response, parse);
          ConcatAssoc(before, [FileWrite(xmlFilepath, response.content)], ConvertXmlToTxt(xmlFilepath, parse(response.content)));
        }
      } else {
        assert writes == before + GrobidWrites(pdfFile, response, parse) by {
          assert GrobidWrites(pdfFile, response, parse) == [];
        }
      }
      AllGrobidWritesStep(pdfFiles, i, grobid, parse);
      i := i + 1;
    }
    assert pdfFiles[..i] == pdfFiles;
  }
}
