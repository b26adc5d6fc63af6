/** The SQL extraction applied to the language model's reply before it is shown and executed. */
module FetchResult {
  import opened Wrappers
  import opened Strings

  /**
   * `next((i for i, line in enumerate(lines) if "SELECT" in line), None)`:
   * the position of the first line holding the keyword, if any.
   */
  function SelectLineIndex(lines: seq<string>): (r: Option<nat>)
    ensures r.None? <==> forall i :: 0 <= i < |lines| ==> !Contains(lines[i], "SELECT")
    ensures r.Some? ==> r.value < |lines| && Contains(lines[r.value], "SELECT")
    ensures r.Some? ==> forall j :: 0 <= j < r.value ==> !Contains(lines[j], "SELECT")
    decreases |lines|
  {
    if |lines| == 0 then None
    else if Contains(lines[0], "SELECT") then Some(0)
    else
      match SelectLineIndex(lines[1..])
      case None => None
      case Some(k) => Some(k + 1)
  }

  /**
   * `extract_sql_query`: the lines from the first one holding "SELECT" to the
   * end, joined by newlines; nothing exactly when no line contains the keyword.
   */
  function ExtractSqlQuery(text: string): (r: Option<string>)
    ensures r.Some? ==> exists i :: 0 <= i < |Split(text, '\n')| && Contains(Split(text, '\n')[i], "SELECT")
    ensures r.None? ==> forall i :: 0 <= i < |Split(text, '\n')| ==> !Contains(Split(text, '\n')[i], "SELECT")
  {
    var lines := Split(text, '\n');
    var found := SelectLineIndex(lines);
    if found.None? then None
    else
      Some(Join(lines[found.value..], "\n"))
  }

  /**
   * A result is the tail of the input starting at the first line that
   * contains "SELECT": its lines are the input's lines from there on, its
   * first line contains the keyword, no earlier input line does, and it is a
   * suffix of the input text.
   */
  lemma ExtractSqlQuerySuffix(text: string)
    requires ExtractSqlQuery(text).Some?
    ensures var q := ExtractSqlQuery(text).value;
      var lines := Split(text, '\n');
      var i := SelectLineIndex(lines).value;
      && Split(q, '\n') == lines[i..]
      && Contains(Split(q, '\n')[0], "SELECT")
      && (forall j :: 0 <= j < i ==> !Contains(lines[j], "SELECT"))
      && |q| <= |text| && text[|text| - |q|..] == q
  {
    var lines := Split(text, '\n');
    var i := SelectLineIndex(lines).value;
    var q := Join(lines[i..], "\n");
    SplitJoin(lines[i..], '\n');
    JoinSplit(text, '\n');
    if i > 0 {
      JoinAt(lines, i, "\n");
    } else {
      assert lines[i..] == lines;
    }
  }

  /** A text whose first line already contains "SELECT" comes back unchanged. */
  lemma ExtractSqlQueryFirstLine(text: string)
    requires Contains(Split(text, '\n')[0], "SELECT")
    ensures ExtractSqlQuery(text) == Some(text)
  {
    var lines := Split(text, '\n');
    assert lines[0..] == lines;
    JoinSplit(text, '\n');
  }

  lemma {:induction false} SplitChars(s: string, sep: char)
    ensures forall i, k :: 0 <= i < |Split(s, sep)| && 0 <= k < |Split(s, sep)[i]| ==> Split(s, sep)[i][k] in s
    decreases |s|
  {
    if |s| > 0 {
      SplitChars(s[1..], sep);
    }
  }

  /** The keyword test is case-sensitive: text without a capital 'S' (all-lowercase "select", say) yields nothing. */
  lemma LowercaseSelectIgnored(text: string)
    requires 'S' !in text
    ensures ExtractSqlQuery(text).None?
  {
    var lines := Split(text, '\n');
    SplitChars(text, '\n');
    forall i | 0 <= i < |lines| ensures !Contains(lines[i], "SELECT") {
      assert "SELECT"[0] == 'S';
      MissingCharNotContained(lines[i], "SELECT", 'S');
    }
  }
}
