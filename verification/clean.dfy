/** Removal of hosting-platform boilerplate from descriptions (`CleanDescription`). */
module Clean {
  import opened Text

  /** The "Hosted on Acast" footer, with its inline styles and privacy link. */
  const Acast: string := "<hr><p style='color:grey; font-size:0.75em;'> Hosted on Acast. See <a style='color:grey;' target='_blank' rel='noopener noreferrer' href='https://acast.com/privacy'>acast.com/privacy</a> for more information.</p>"

  /** The art19 privacy notice as an HTML paragraph with links. */
  const Art19: string := "<p>Unsere allgemeinen Datenschutzrichtlinien finden Sie unter <a href=\"https://art19.com/privacy\" rel=\"noopener noreferrer\" target=\"_blank\">https://art19.com/privacy</a>. Die Datenschutzrichtlinien für Kalifornien sind unter <a href=\"https://art19.com/privacy#do-not-sell-my-info\" rel=\"noopener noreferrer\" target=\"_blank\">https://art19.com/privacy#do-not-sell-my-info</a> abrufbar.</p>"

  /** The same notice as plain text. */
  const Art19Plain: string := "Unsere allgemeinen Datenschutzrichtlinien finden Sie unter https://art19.com/privacy. Die Datenschutzrichtlinien für Kalifornien sind unter https://art19.com/privacy#do-not-sell-my-info abrufbar."

  /** The empty paragraph left behind by editors. */
  const EmptyParagraph: string := "<p><br></p>"

  /** None of the four boilerplate blocks occurs in `s`. */
  predicate Clean(s: string) {
    && !Contains(s, Acast)
    && !Contains(s, Art19)
    && !Contains(s, Art19Plain)
    && !Contains(s, EmptyParagraph)
  }

  /** Four global deletions, in this order: Acast footer, art19 HTML notice,
      art19 plain notice, empty paragraph. Only deletes: the result is the
      input with characters cut out, the rest kept in order. */
  function CleanDescription(s: string): (r: string)
    ensures |r| <= |s|
    ensures Sub(r, s)
  {
    DeletionsDeleteOnly(s, Acast, Art19, Art19Plain, EmptyParagraph);
    var s1 := ReplaceAll(s, Acast, "");
    var s2 := ReplaceAll(s1, Art19, "");
    var s3 := ReplaceAll(s2, Art19Plain, "");
    ReplaceAll(s3, EmptyParagraph, "")
  }

  /** The cleaner leaves a description alone exactly when it contains none of
      the four blocks: any deletion makes the text strictly shorter, and no
      step ever lengthens it. */
  lemma CleanUnchangedIff(s: string)
    ensures CleanDescription(s) == s <==> Clean(s)
  {
    DeletionsUnchangedIff(s, Acast, Art19, Art19Plain, EmptyParagraph);
  }

  /** An Acast footer in front of otherwise clean text is removed without residue. */
  lemma CleanAcastPrefix(t: string)
    requires Clean(t)
    ensures CleanDescription(Acast + t) == t
  {
    ReplaceAllLeading(Acast, t, "");
    ReplaceAllAbsent(t, Acast, "");
    assert ReplaceAll(Acast + t, Acast, "") == t;
    ReplaceAllAbsent(t, Art19, "");
    ReplaceAllAbsent(t, Art19Plain, "");
    ReplaceAllAbsent(t, EmptyParagraph, "");
  }

  /** The plain-text notice is removed on its own, without its HTML variant,
      and so is an empty paragraph. */
  lemma CleanSingleBlocks()
    ensures CleanDescription(Art19Plain) == ""
    ensures CleanDescription(EmptyParagraph) == ""
  {
    ReplaceAllLeading(Art19Plain, "", "");
    ReplaceAllLeading(EmptyParagraph, "", "");
    assert Art19Plain + "" == Art19Plain;
    assert EmptyParagraph + "" == EmptyParagraph;
  }

  /** Each deletion is a single pass: an empty paragraph that only appears
      once a nested one has been deleted survives. */
  lemma CleanIsSinglePass(s: string)
    requires s == "<p>" + EmptyParagraph + "<br></p>"
    ensures CleanDescription(s) == EmptyParagraph
  {
    assert |s| < |Acast| && |s| < |Art19| && |s| < |Art19Plain|;
    NestedEmptyParagraph();
  }

  /** One pass over an empty paragraph nested in another deletes the inner
      one and joins the outer halves into a new empty paragraph. */
  lemma NestedEmptyParagraph()
    ensures ReplaceAll("<p>" + EmptyParagraph + "<br></p>", EmptyParagraph, []) == EmptyParagraph
  {
    forall i: nat | i < |"<p>"|
      ensures !OccursAt("<p>" + (EmptyParagraph + "<br></p>"), EmptyParagraph, i)
    {
      assert ("<p>" + (EmptyParagraph + "<br></p>"))[i + 4] != EmptyParagraph[4];
    }
    DeleteOnce("<p>", EmptyParagraph, "<br></p>");
    assert "<p>" + "<br></p>" == EmptyParagraph;
  }
}
