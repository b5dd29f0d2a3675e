/** Rendering of a description to HTML (`IsHTML`, `IsMarkdown`, `CreateHTML`).
    The Markdown parser and renderer are a foreign library and enter the model
    as the uninterpreted parameter `markdown`. */
module HtmlGen {
  import opened Text

  /** Text that already looks like HTML: `strings.Count` finds two or more
      `<` and two or more `>`, that is, two distinct positions hold `<` and
      two hold `>`. */
  predicate IsHTML(s: string): (b: bool)
    ensures b <==> HasTwo(s, {'<'}) && HasTwo(s, {'>'})
  {
    CountAtLeastTwo(s, {'<'});
    CountAtLeastTwo(s, {'>'});
    Count(s, {'<'}) >= 2 && Count(s, {'>'}) >= 2
  }

  /** Text that looks like Markdown: the counts of `*` and `[` add up to two
      or more, that is, two distinct positions each hold `*` or `[` (the two
      may be the same character). */
  predicate IsMarkdown(s: string): (b: bool)
    ensures b <==> HasTwo(s, {'*', '['})
  {
    CountUnion(s, {'*'}, {'['});
    assert {'*'} + {'['} == {'*', '['};
    CountAtLeastTwo(s, {'*', '['});
    Count(s, {'*'}) + Count(s, {'['}) >= 2
  }

  /** The three renderings, decided in this order. */
  datatype Format = Html | Markdown | PlainText

  function Classify(s: string): (f: Format)
    ensures f == Html <==> IsHTML(s)
    ensures f == Markdown <==> !IsHTML(s) && IsMarkdown(s)
  {
    if IsHTML(s) then Html
    else if IsMarkdown(s) then Markdown
    else PlainText
  }

  /** Plain text with each newline turned into a line-break tag, the
      source's `strings.ReplaceAll(s, "\n", "<br>")` (see `BreakLinesIsReplaceAll`). */
  function BreakLines(s: string): (r: string)
    ensures '\n' !in r
    ensures '\n' !in s ==> r == s
  {
    ExpandCharRemoves(s, '\n', "<br>");
    assert '\n' !in s ==> ExpandChar(s, '\n', "<br>") == s by {
      if '\n' !in s {
        ExpandCharAbsent(s, '\n', "<br>");
      }
    }
    ExpandChar(s, '\n', "<br>")
  }

  /** The character-wise substitution is exactly Go's `strings.ReplaceAll`. */
  lemma BreakLinesIsReplaceAll(s: string)
    ensures BreakLines(s) == ReplaceAll(s, "\n", "<br>")
  {
    ReplaceAllSingleChar(s, '\n', "<br>");
  }

  /** `CreateHTML`. HTML passes through verbatim, even when it also looks
      like Markdown; Markdown goes to the renderer; plain text only gets line
      breaks: the auto-linked copy the source computes is never used, so the
      output is the input with exactly its newlines substituted. */
  function CreateHTML(markdown: string -> string, s: string): (r: string)
    ensures IsHTML(s) ==> r == s
    ensures !IsHTML(s) && IsMarkdown(s) ==> r == markdown(s)
    ensures Classify(s) == PlainText ==> r == ExpandChar(s, '\n', "<br>") && '\n' !in r
  {
    match Classify(s)
    case Html => s
    case Markdown => markdown(s)
    case PlainText => BreakLines(s)
  }

  lemma MarkdownExamples()
    ensures IsMarkdown("**") && IsMarkdown("[[") && IsMarkdown("*[")
    ensures !IsMarkdown("*")
  {
  }

  /** Typical descriptions: tagged text is HTML ... */
  lemma ClassifyHtmlExample()
    ensures Classify("<p>a</p><p>b</p>") == Html
  {
    var s := "<p>a</p><p>b</p>";
    assert s[0] == '<' && s[4] == '<' && s[2] == '>' && s[7] == '>';
  }

  /** ... even when it also carries Markdown markers ... */
  lemma ClassifyHtmlWinsExample()
    ensures Classify("<b>*x*</b>") == Html
  {
    var s := "<b>*x*</b>";
    assert s[0] == '<' && s[6] == '<' && s[2] == '>' && s[9] == '>';
  }

  /** ... emphasis and links are Markdown ... */
  lemma ClassifyMarkdownExample()
    ensures Classify("*bold* [x]") == Markdown
  {
  }

  /** ... and a bare line of text is plain. */
  lemma ClassifyPlainExample()
    ensures Classify("plain\ntext") == PlainText
  {
    var s := "plain\ntext";
    assert forall i :: 0 <= i < |s| ==> s[i] != '<' && s[i] != '*' && s[i] != '[';
  }

  /** Newline substitution around one newline. */
  lemma BreakAroundNewline(a: string, b: string)
    requires '\n' !in a && '\n' !in b
    ensures ExpandChar(a + "\n" + b, '\n', "<br>") == a + "<br>" + b
  {
    ExpandCharConcat(a + "\n", b, '\n', "<br>");
    ExpandCharConcat(a, "\n", '\n', "<br>");
    ExpandCharAbsent(a, '\n', "<br>");
    ExpandCharAbsent(b, '\n', "<br>");
  }

  /** A newline between two newline-free pieces of plain text becomes a
      line break, and nothing else is added. */
  lemma CreateHTMLLineBreak(markdown: string -> string, a: string, b: string)
    requires '\n' !in a && '\n' !in b
    requires Classify(a + "\n" + b) == PlainText
    ensures CreateHTML(markdown, a + "\n" + b) == a + "<br>" + b
  {
    BreakAroundNewline(a, b);
  }
}
