/** What both extraction scripts share about object-store keys and the files they write. */
module Storage {
  import opened Strings

  /** `key.lower().endswith('.pdf')`: the extension test, in any letter case. */
  predicate IsPdfKey(key: string) {
    EndsWith(Lower(key), ".pdf")
  }

  /** The test accepts ".pdf", ".PDF", ".Pdf", ... and nothing else. */
  lemma IsPdfKeyCases(key: string)
    ensures IsPdfKey(key) <==>
      && |key| >= 4 && key[|key| - 4] == '.'
      && (key[|key| - 3] == 'p' || key[|key| - 3] == 'P')
      && (key[|key| - 2] == 'd' || key[|key| - 2] == 'D')
      && (key[|key| - 1] == 'f' || key[|key| - 1] == 'F')
  {
    var n := |key|;
    if n >= 4 {
      var tail := Lower(key)[n - 4..];
      assert tail == [LowerChar(key[n - 4]), LowerChar(key[n - 3]), LowerChar(key[n - 2]), LowerChar(key[n - 1])];
    }
  }

  /** The keys that pass the extension test, in listing order. */
  function PdfKeys(keys: seq<string>): (r: seq<string>)
    ensures |r| <= |keys|
    ensures forall i :: 0 <= i < |r| ==> IsPdfKey(r[i]) && r[i] in keys
    ensures forall i :: 0 <= i < |keys| && IsPdfKey(keys[i]) ==> keys[i] in r
    decreases |keys|
  {
    if |keys| == 0 then []
    else
      var init := PdfKeys(keys[..|keys| - 1]);
      assert forall i :: 0 <= i < |keys| - 1 ==> keys[..|keys| - 1][i] == keys[i];
      if IsPdfKey(keys[|keys| - 1]) then init + [keys[|keys| - 1]] else init
  }

  /** Filtering a concatenation filters each part in turn, so the filter keeps listing order. */
  lemma {:induction false} PdfKeysAppend(a: seq<string>, b: seq<string>)
    ensures PdfKeys(a + b) == PdfKeys(a) + PdfKeys(b)
    decreases |b|
  {
    if |b| == 0 {
      assert a + b == a;
    } else {
      var b' := b[..|b| - 1];
      assert (a + b)[..|a + b| - 1] == a + b';
      PdfKeysAppend(a, b');
    }
  }

  /** A file the script writes: its path and its whole new contents. */
  datatype FileWrite = FileWrite(path: string, content: string)
}
