/**
 `wrap_text_in_html`: every newline-separated line of a text becomes one
 `<p>` paragraph; a list of pages is first joined with a horizontal rule
 between consecutive pages.
 */
module Html {
  import opened Strings

  /** The argument of `wrap_text_in_html`: one text, or a list of page texts. */
  datatype TextInput = Text(text: string) | Pages(pages: seq<string>)

  /** What `"\n<hr/>\n".join(pages)` puts between two pages. */
  const PageSeparator: string := "\n<hr/>\n"

  /** The separator is a newline, the rule, and a newline. */
  lemma PageSeparatorParts()
    ensures PageSeparator == "\n" + ("<hr/>" + "\n")
  {
  }

  /** One line as a paragraph. */
  function Paragraph(line: string): string
  {
    "<p>" + line + "</p>"
  }

  /** Each line as a paragraph, in order. */
  function Paragraphs(lines: seq<string>): (r: seq<string>)
    ensures |r| == |lines|
    ensures forall i :: 0 <= i < |lines| ==> r[i] == Paragraph(lines[i])
  {
    if |lines| == 0 then [] else [Paragraph(lines[0])] + Paragraphs(lines[1..])
  }

  lemma {:induction false} ParagraphsAppend(a: seq<string>, b: seq<string>)
    ensures Paragraphs(a + b) == Paragraphs(a) + Paragraphs(b)
    decreases |a|
  {
    if |a| == 0 {
      assert a + b == b;
    } else {
      assert (a + b)[1..] == a[1..] + b;
      ParagraphsAppend(a[1..], b);
    }
  }

  /** The paragraphs of a text, one per line. */
  function ParagraphsOf(text: string): (r: seq<string>)
    ensures |r| == CountChar(text, '\n') + 1
  {
    SplitCharCount(text, '\n');
    Paragraphs(Split(text, "\n"))
  }

  /** The text that is wrapped: the text itself, or the pages joined by rules. */
  function InputText(input: TextInput): string
  {
    match input
    case Text(t) => t
    case Pages(ps) => Join(ps, PageSeparator)
  }

  /**
   `wrap_text_in_html`: the result holds no newline, and each of the
   `n + 1` lines of a text with `n` newlines gains the 7 characters of
   `<p>` and `</p>` while the `n` newlines are dropped.
   */
  function WrapTextInHtml(input: TextInput): (r: string)
    ensures '\n' !in r
    ensures |r| == |InputText(input)| + 6 * CountChar(InputText(input), '\n') + 7
  {
    var text := InputText(input);
    var lines := Split(text, "\n");
    SplitCharCount(text, '\n');
    JoinLength(lines, "\n");
    LinesHaveNoNewline(lines);
    ConcatParagraphs(lines);
    Concat(ParagraphsOf(text))
  }

  /** The pieces of a split on newlines hold no newline. */
  lemma LinesHaveNoNewline(lines: seq<string>)
    requires forall i: nat, j: nat :: i < |lines| ==> !OccursAt(lines[i], "\n", j)
    ensures forall i :: 0 <= i < |lines| ==> '\n' !in lines[i]
  {
    forall i, k | 0 <= i < |lines| && 0 <= k < |lines[i]| ensures lines[i][k] != '\n' {
      CharOccursAt(lines[i], '\n', k);
    }
  }

  /** A paragraph adds 7 characters and no newline to its line. */
  lemma ParagraphShape(line: string)
    requires '\n' !in line
    ensures |Paragraph(line)| == |line| + 7
    ensures '\n' !in Paragraph(line)
  {
    assert '\n' !in "<p>" && '\n' !in "</p>";
  }

  /** The paragraphs of some lines add 7 characters per line and no newline. */
  lemma {:induction false} ConcatParagraphs(lines: seq<string>)
    requires forall i :: 0 <= i < |lines| ==> '\n' !in lines[i]
    ensures |Concat(Paragraphs(lines))| == TotalLength(lines) + 7 * |lines|
    ensures '\n' !in Concat(Paragraphs(lines))
    decreases |lines|
  {
    if |lines| > 0 {
      var ps := Paragraphs(lines);
      assert ps[1..] == Paragraphs(lines[1..]);
      ParagraphShape(lines[0]);
      ConcatParagraphs(lines[1..]);
      assert Concat(ps) == Paragraph(lines[0]) + Concat(Paragraphs(lines[1..]));
    }
  }

  /** Wrapping a single line gives exactly one paragraph. */
  lemma WrapSingleLine(line: string)
    requires '\n' !in line
    ensures WrapTextInHtml(Text(line)) == Paragraph(line)
  {
    forall j: nat ensures !OccursAt(line, "\n", j) {
      CharOccursAt(line, '\n', j);
      if j < |line| {
        assert line[j] in line;
      }
    }
    assert Split(line, "\n") == [line];
    assert ParagraphsOf(line) == [Paragraph(line)];
    assert Concat([Paragraph(line)]) == Paragraph(line) + Concat([]);
  }

  /** The lines of two texts joined by a newline are the lines of each, in order. */
  lemma ParagraphsOfAppend(a: string, b: string)
    ensures ParagraphsOf(a + "\n" + b) == ParagraphsOf(a) + ParagraphsOf(b)
  {
    SplitCharAppend(a, b, '\n');
    ParagraphsAppend(Split(a, "\n"), Split(b, "\n"));
  }

  /** The paragraphs of two texts joined by a newline are the paragraphs of each, in order. */
  lemma WrapAppend(a: string, b: string)
    ensures WrapTextInHtml(Text(a + "\n" + b)) == WrapTextInHtml(Text(a)) + WrapTextInHtml(Text(b))
  {
    ParagraphsOfAppend(a, b);
    ConcatAppend(ParagraphsOf(a), ParagraphsOf(b));
  }

  /** An empty list of pages gives one empty paragraph; one page is wrapped as its own text. */
  lemma WrapFewPages(page: string)
    ensures WrapTextInHtml(Pages([])) == Paragraph("")
    ensures WrapTextInHtml(Pages([page])) == WrapTextInHtml(Text(page))
  {
    WrapSingleLine("");
  }

  /** The joined pages: the first page, a separator, then the other pages joined. */
  lemma JoinPagesCons(page: string, rest: seq<string>)
    requires |rest| > 0
    ensures Join([page] + rest, PageSeparator) == page + "\n" + ("<hr/>" + "\n" + Join(rest, PageSeparator))
  {
    var ps := [page] + rest;
    assert ps[1..] == rest;
    var tail := Join(rest, PageSeparator);
    var rule := "<hr/>" + "\n";
    assert Join(ps, PageSeparator) == page + PageSeparator + tail;
    PageSeparatorParts();
    AppendAssoc(page, "\n", rule);
    AppendAssoc(page + "\n", rule, tail);
  }

  /** The horizontal rule line is wrapped as one paragraph. */
  lemma RuleParagraph()
    ensures WrapTextInHtml(Text("<hr/>")) == Paragraph("<hr/>")
  {
    WrapSingleLine("<hr/>");
  }

  /** Consecutive pages are separated by the paragraph `<p><hr/></p>`. */
  lemma WrapPagesCons(page: string, rest: seq<string>)
    requires |rest| > 0
    ensures WrapTextInHtml(Pages([page] + rest))
         == WrapTextInHtml(Text(page)) + Paragraph("<hr/>") + WrapTextInHtml(Pages(rest))
  {
    var tail := Join(rest, PageSeparator);
    JoinPagesCons(page, rest);
    assert WrapTextInHtml(Pages([page] + rest)) == WrapTextInHtml(Text(page + "\n" + ("<hr/>" + "\n" + tail)));
    WrapAppend(page, "<hr/>" + "\n" + tail);
    WrapAppend("<hr/>", tail);
    RuleParagraph();
    assert WrapTextInHtml(Pages(rest)) == WrapTextInHtml(Text(tail));
    AppendRegroup(WrapTextInHtml(Pages([page] + rest)),
                  WrapTextInHtml(Text(page)) + Paragraph("<hr/>"),
                  WrapTextInHtml(Text(page)), Paragraph("<hr/>"), WrapTextInHtml(Text(tail)));
  }
}
