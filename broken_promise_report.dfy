/**
  The text findBrokenPromise produces, and a reader for it. Each group of two
  or more callbacks registered on the same queue object becomes one warning
  paragraph:

    Possible Broken Promise between lines: <d1>, ..., <dn-1> and <dn>!
    Forked from line: <q>.

  where each <di> lists the allocation-site line numbers of the value the i-th
  callback produces and <q> those of the queue object, every list joined with
  " / ". The reader recovers the warnings from the text, which shows that the
  report loses nothing: every line number of every warning can be read back.
*/
module BrokenPromiseReport {
  import opened Wrappers
  import opened JavaStrings

  /** The characters a rendered list of line numbers can contain. */
  const LineAlphabet: set<char> := DigitChars + {'-', ' ', '/'}

  const Opening := "Possible Broken Promise between lines: "
  const ForkedFrom := "Forked from line: "

  /** String.valueOf of each line number. */
  function IntStrings(ls: seq<int>): (r: seq<string>)
    ensures |r| == |ls|
    ensures forall i :: 0 <= i < |ls| ==> r[i] == IntToString(ls[i])
  {
    if ls == [] then [] else [IntToString(ls[0])] + IntStrings(ls[1..])
  }

  /**
    The line numbers of a value's allocation sites joined with " / ", as
    getDependentQueueObjectLineNumber and getQueueObjectLineNumber write them.
    The text is empty exactly when there are no allocation sites.
  */
  function LineNumbersText(ls: seq<int>): (s: string)
    ensures AllIn(s, LineAlphabet)
    ensures s == "" <==> ls == []
  {
    var parts := IntStrings(ls);
    forall i | 0 <= i < |parts| ensures AllIn(parts[i], LineAlphabet) {
      assert AllIn(IntToString(ls[i]), DigitChars + {'-'});
    }
    JoinAllIn(" / ", parts, LineAlphabet);
    assert |parts| > 0 ==> |Join(" / ", parts)| >= |parts[0]|;
    Join(" / ", parts)
  }

  /** Reads each text as one number; None if any of them is not one. */
  function ParseInts(ts: seq<string>): Option<seq<int>> {
    if ts == [] then Some([])
    else
      match (ParseInt(ts[0]), ParseInts(ts[1..]))
      case (Some(i), Some(more)) => Some([i] + more)
      case _ => None
  }

  /** Reads back a list of line numbers written by LineNumbersText. */
  function ParseLineNumbers(s: string): Option<seq<int>> {
    if s == "" then Some([]) else ParseInts(Split(s, " / "))
  }

  lemma {:induction false} ParseIntsIntStrings(ls: seq<int>)
    ensures ParseInts(IntStrings(ls)) == Some(ls)
  {
    if ls != [] {
      var ts := IntStrings(ls);
      assert ts[0] == IntToString(ls[0]) && ts[1..] == IntStrings(ls[1..]);
      assert ParseInt(ts[0]) == Some(ls[0]) by { ParseIntToString(ls[0]); }
      assert ParseInts(ts[1..]) == Some(ls[1..]) by { ParseIntsIntStrings(ls[1..]); }
      assert ls == [ls[0]] + ls[1..];
    }
  }

  /** A rendered list of line numbers reads back as the same list. */
  lemma {:induction false} ParseLineNumbersText(ls: seq<int>)
    ensures ParseLineNumbers(LineNumbersText(ls)) == Some(ls)
  {
    if ls != [] {
      var parts := IntStrings(ls);
      forall i | 0 <= i < |parts| ensures " / "[0] !in parts[i] {
        NotIn(IntToString(ls[i]), DigitChars + {'-'}, ' ');
      }
      SplitJoin(" / ", parts);
      ParseIntsIntStrings(ls);
    }
  }

  // ---------------------------------------------------------------------------
  // Warnings
  // ---------------------------------------------------------------------------

  /**
    One warning: the line numbers of the value each callback of the group
    produces, in group order, and those of the shared queue object.
  */
  datatype Warning = Warning(dependentLines: seq<seq<int>>, forkedFrom: seq<int>)

  /** A warning is only written for a group of two or more callbacks. */
  predicate WellFormed(w: Warning) {
    |w.dependentLines| >= 2
  }

  function LineTexts(lss: seq<seq<int>>): (r: seq<string>)
    ensures |r| == |lss|
    ensures forall i :: 0 <= i < |lss| ==> r[i] == LineNumbersText(lss[i])
  {
    if lss == [] then [] else [LineNumbersText(lss[0])] + LineTexts(lss[1..])
  }

  /**
    A warning paragraph with the given texts for the dependent lines before the
    last, the last dependent lines, and the queue object's lines.
  */
  function Paragraph(first: string, last: string, forked: string): string {
    Opening + first + " and " + last + "!\n" + ForkedFrom + forked + ".\n"
  }

  /** The paragraph written for one warning. */
  function RenderWarning(w: Warning): string
    requires WellFormed(w)
  {
    var n := |w.dependentLines| - 1;
    Paragraph(Join(", ", LineTexts(w.dependentLines[..n])), LineNumbersText(w.dependentLines[n]),
              LineNumbersText(w.forkedFrom))
  }

  /** The report: the paragraphs of the warnings, in order. */
  function Render(ws: seq<Warning>): string
    requires forall i :: 0 <= i < |ws| ==> WellFormed(ws[i])
  {
    if ws == [] then "" else RenderWarning(ws[0]) + Render(ws[1..])
  }

  lemma {:induction false} AppendAssociative(a: string, b: string, c: string)
    ensures a + (b + c) == (a + b) + c
  {
  }

  lemma {:induction false} RenderSnoc(ws: seq<Warning>, w: Warning)
    requires forall i :: 0 <= i < |ws| ==> WellFormed(ws[i])
    requires WellFormed(w)
    ensures forall i :: 0 <= i < |ws + [w]| ==> WellFormed((ws + [w])[i])
    ensures Render(ws + [w]) == Render(ws) + RenderWarning(w)
  {
    if ws == [] {
      assert ws + [w] == [w];
    } else {
      var first, rest, last := RenderWarning(ws[0]), Render(ws[1..]), RenderWarning(w);
      assert (ws + [w])[0] == ws[0] && (ws + [w])[1..] == ws[1..] + [w];
      AppendAssociative(first, rest, last);
      RenderSnoc(ws[1..], w);
    }
  }

  /** The report is empty exactly when there is nothing to warn about. */
  lemma {:induction false} RenderEmpty(ws: seq<Warning>)
    requires forall i :: 0 <= i < |ws| ==> WellFormed(ws[i])
    ensures Render(ws) == "" <==> ws == []
  {
  }

  // ---------------------------------------------------------------------------
  // Reading a report back
  // ---------------------------------------------------------------------------

  /** Reads each text as a list of line numbers. */
  function ParseLineLists(ts: seq<string>): Option<seq<seq<int>>> {
    if ts == [] then Some([])
    else
      match (ParseLineNumbers(ts[0]), ParseLineLists(ts[1..]))
      case (Some(ls), Some(lss)) => Some([ls] + lss)
      case _ => None
  }

  /**
    Reads the warning paragraph at the front of `s` and returns it with the
    text after it. Every field ends at a character that cannot occur in it:
    the dependent lines before the last at the 'a' of "and ", the last ones
    at the '!', and the queue object's at the '.'.
  */
  function ParseWarning(s: string): (r: Option<(Warning, string)>)
    ensures r.Some? ==> |r.value.1| < |s|
  {
    match Cut(s, Opening)
    case Some(("", t)) => ParseFirst(t)
    case _ => None
  }

  /** After the opening: the dependent lines before the last, up to " and ". */
  function ParseFirst(t: string): (r: Option<(Warning, string)>)
    ensures r.Some? ==> |r.value.1| < |t|
  {
    match Cut(t, "and ")
    case Some((x, u)) =>
      if x == [] || x[|x| - 1] != ' ' then None else ParseLast(x[..|x| - 1], u)
    case None => None
  }

  /** After " and ": the last dependent lines, up to "!" and the line break. */
  function ParseLast(first: string, u: string): (r: Option<(Warning, string)>)
    ensures r.Some? ==> |r.value.1| < |u|
  {
    match Cut(u, "!\n" + ForkedFrom)
    case Some((y, v)) => ParseForked(first, y, v)
    case None => None
  }

  /** After "Forked from line: ": the queue object's lines, up to ".\n". */
  function ParseForked(first: string, last: string, v: string): (r: Option<(Warning, string)>)
    ensures r.Some? ==> |r.value.1| < |v|
  {
    match Cut(v, ".\n")
    case Some((z, more)) => Assemble(first, last, z, more)
    case None => None
  }

  /** The warning whose three fields read as the given texts. */
  function Assemble(first: string, last: string, forked: string, more: string): (r: Option<(Warning, string)>)
    ensures r.Some? ==> r.value.1 == more
  {
    match (ParseLineLists(Split(first, ", ")), ParseLineNumbers(last), ParseLineNumbers(forked))
    case (Some(fs), Some(l), Some(q)) => Some((Warning(fs + [l], q), more))
    case _ => None
  }

  /** Reads a whole report back into its warnings; None if it is not one. */
  function ParseReport(s: string): Option<seq<Warning>>
    decreases |s|
  {
    if s == "" then Some([])
    else
      match ParseWarning(s)
      case None => None
      case Some((w, more)) =>
        match ParseReport(more)
        case None => None
        case Some(ws) => Some([w] + ws)
  }

  lemma {:induction false} ParseLineListsTexts(lss: seq<seq<int>>)
    ensures ParseLineLists(LineTexts(lss)) == Some(lss)
  {
    if lss != [] {
      ParseLineNumbersText(lss[0]);
      assert LineTexts(lss)[1..] == LineTexts(lss[1..]);
      ParseLineListsTexts(lss[1..]);
      assert lss == [lss[0]] + lss[1..];
    }
  }

  lemma {:induction false} NoCommaInLineNumbers(ls: seq<int>)
    ensures ',' !in LineNumbersText(ls)
  {
    NotIn(LineNumbersText(ls), LineAlphabet, ',');
  }

  /** The dependent lines before the last one, joined with ", ", read back. */
  lemma {:induction false} ParseFirstLines(lss: seq<seq<int>>)
    requires |lss| >= 1
    ensures ParseLineLists(Split(Join(", ", LineTexts(lss)), ", ")) == Some(lss)
  {
    var texts := LineTexts(lss);
    forall i | 0 <= i < |texts| ensures ", "[0] !in texts[i] {
      NoCommaInLineNumbers(lss[i]);
    }
    SplitJoin(", ", texts);
    ParseLineListsTexts(lss);
  }

  /** The dependent lines before the last one, joined with ", ", contain no 'a'. */
  lemma {:induction false} FirstLinesAlphabet(lss: seq<seq<int>>)
    ensures AllIn(Join(", ", LineTexts(lss)), LineAlphabet + {','})
  {
    var texts := LineTexts(lss);
    forall i | 0 <= i < |texts| ensures AllIn(texts[i], LineAlphabet + {','}) {
    }
    JoinAllIn(", ", texts, LineAlphabet + {','});
  }

  /** A character outside an alphabet does not occur in a text over it. */
  lemma {:induction false} NotIn(s: string, alphabet: set<char>, c: char)
    requires AllIn(s, alphabet) && c !in alphabet
    ensures c !in s
  {
    forall j | 0 <= j < |s| ensures s[j] != c {
      assert s[j] in alphabet;
    }
  }

  lemma {:induction false} ParseForkedAt(first: string, last: string, z: string, more: string)
    requires '.' !in z
    ensures ParseForked(first, last, z + ".\n" + more) == Assemble(first, last, z, more)
  {
    CutAt(z, ".\n", more);
  }

  lemma {:induction false} ParseLastAt(first: string, y: string, v: string)
    requires '!' !in y
    ensures ParseLast(first, y + ("!\n" + ForkedFrom) + v) == ParseForked(first, y, v)
  {
    CutAt(y, "!\n" + ForkedFrom, v);
  }

  lemma {:induction false} ParseFirstAt(x: string, u: string)
    requires 'a' !in x
    ensures ParseFirst((x + " ") + "and " + u) == ParseLast(x, u)
  {
    CutAt(x + " ", "and ", u);
    assert (x + " ")[..|x + " "| - 1] == x;
  }

  lemma {:induction false} ParseWarningAt(t: string)
    ensures ParseWarning(Opening + t) == ParseFirst(t)
  {
    CutAt("", Opening, t);
    assert "" + Opening + t == Opening + t;
  }

  /** The paragraph regrouped around the places where the reader cuts it. */
  lemma {:induction false} ParagraphShape(x: string, y: string, z: string, more: string)
    ensures Paragraph(x, y, z) + more
         == Opening + ((x + " ") + "and " + (y + ("!\n" + ForkedFrom) + (z + ".\n" + more)))
  {
  }

  /**
    The reader takes a paragraph apart at the right places whenever its
    fields do not contain the characters that end them.
  */
  lemma {:induction false} ParseParagraph(x: string, y: string, z: string, more: string)
    requires 'a' !in x && '!' !in y && '.' !in z
    ensures ParseWarning(Paragraph(x, y, z) + more) == Assemble(x, y, z, more)
  {
    var v := z + ".\n" + more;
    var u := y + ("!\n" + ForkedFrom) + v;
    ParagraphShape(x, y, z, more);
    ParseWarningAt((x + " ") + "and " + u);
    ParseFirstAt(x, u);
    ParseLastAt(x, y, v);
    ParseForkedAt(x, y, z, more);
  }

  /** None of the characters that end a field occurs in a list of line numbers. */
  lemma {:induction false} LineNumbersTextFree(ls: seq<int>)
    ensures 'a' !in LineNumbersText(ls) && '!' !in LineNumbersText(ls) && '.' !in LineNumbersText(ls)
  {
    var s := LineNumbersText(ls);
    NotIn(s, LineAlphabet, 'a');
    NotIn(s, LineAlphabet, '!');
    NotIn(s, LineAlphabet, '.');
  }

  /** A paragraph whose fields read back reads back as the warning made of them. */
  lemma {:induction false} ParseParagraphParsed(x: string, y: string, z: string, more: string,
                                                first: seq<seq<int>>, last: seq<int>, forked: seq<int>)
    requires 'a' !in x && '!' !in y && '.' !in z
    requires ParseLineLists(Split(x, ", ")) == Some(first)
    requires ParseLineNumbers(y) == Some(last) && ParseLineNumbers(z) == Some(forked)
    ensures ParseWarning(Paragraph(x, y, z) + more) == Some((Warning(first + [last], forked), more))
  {
    ParseParagraph(x, y, z, more);
  }

  /** A warning paragraph reads back as the same warning, followed by what came after it. */
  lemma {:induction false} ParseRenderWarning(w: Warning, more: string)
    requires WellFormed(w)
    ensures ParseWarning(RenderWarning(w) + more) == Some((w, more))
  {
    var n := |w.dependentLines| - 1;
    var first, last := w.dependentLines[..n], w.dependentLines[n];
    assert first + [last] == w.dependentLines;
    var x := Join(", ", LineTexts(first));
    FirstLinesAlphabet(first);
    NotIn(x, LineAlphabet + {','}, 'a');
    LineNumbersTextFree(last);
    LineNumbersTextFree(w.forkedFrom);
    ParseFirstLines(first);
    ParseLineNumbersText(last);
    ParseLineNumbersText(w.forkedFrom);
    ParseParagraphParsed(x, LineNumbersText(last), LineNumbersText(w.forkedFrom), more, first, last, w.forkedFrom);
  }

  /** The first paragraph of a report reads back as its first warning. */
  lemma {:induction false} ParseRenderFirst(ws: seq<Warning>)
    requires forall i :: 0 <= i < |ws| ==> WellFormed(ws[i])
    requires ws != []
    ensures ParseWarning(Render(ws)) == Some((ws[0], Render(ws[1..])))
  {
    ParseRenderWarning(ws[0], Render(ws[1..]));
  }

  /** One step of ParseReport on a text that starts with a warning paragraph. */
  lemma {:induction false} ParseReportStep(s: string, w: Warning, more: string)
    requires s != "" && ParseWarning(s) == Some((w, more))
    ensures ParseReport(s) == match ParseReport(more) case None => None case Some(ws) => Some([w] + ws)
  {
  }

  /** Reading a report takes its first paragraph and then reads the rest. */
  lemma {:induction false} ParseRenderCons(ws: seq<Warning>)
    requires forall i :: 0 <= i < |ws| ==> WellFormed(ws[i])
    requires ws != []
    ensures ParseReport(Render(ws))
         == match ParseReport(Render(ws[1..])) case None => None case Some(rest) => Some([ws[0]] + rest)
  {
    ParseRenderFirst(ws);
    ParseReportStep(Render(ws), ws[0], Render(ws[1..]));
  }

  /** The report reads back as exactly the warnings it was written from. */
  lemma {:induction false} ParseRender(ws: seq<Warning>)
    requires forall i :: 0 <= i < |ws| ==> WellFormed(ws[i])
    ensures ParseReport(Render(ws)) == Some(ws)
  {
    if ws != [] {
      assert ws == [ws[0]] + ws[1..];
      ParseRender(ws[1..]);
      ParseRenderCons(ws);
    }
  }
}
