/**
 Worked inputs of the parser, each an instance of the general lemmas: the
 inputs and results the parser's own unit tests fix, and a shorter document
 in the shape of the document test.
 */
module Examples {
  import opened Combinators
  import opened Inline
  import opened Block

  // ---------------------------------------------------------------------------
  // Emphasis.

  lemma BoldExample()
    ensures ParseBold("**bold text**") == Ok("bold text", "")
  {
    assert "**" + "bold text" + "**" + "" == "**bold text**" by {
      assert "**" + "bold text" + "**" == "**bold text**";
    }
    ParseBoldExact("bold text", "");
  }

  /** `is_not("*")` finds nothing between the four stars. */
  lemma BoldNeedsText()
    ensures ParseBold("****").Fail? && ParseBold("**").Fail?
  {
  }

  lemma ItalicIsNotBold()
    ensures ParseBold("*this is italic*").Fail?
  {
    assert !("**" <= "*this is italic*") by {
      assert "*this is italic*"[1] == 't';
    }
  }

  lemma BoldIsNotItalic()
    ensures ParseItalic("**this is bold**").Fail?
  {
    var s := "**this is bold**";
    assert Tag("*", s) == Ok("*", s[1..]);
    assert s[1..][0] == '*';
  }

  // ---------------------------------------------------------------------------
  // Inline code, links and images.

  lemma InlineCodeLanguage()
    ensures ParseInline("`inline text`rust\n") == Ok(("inline text", Some("rust")), "\n")
  {
    assert "`" + "inline text" + "`" + LanguageText(Some("rust")) + "\n" == "`inline text`rust\n" by {
      assert "`" + "inline text" + "`" + "rust" + "\n" == "`inline text`rust\n";
    }
    ParseInlineExact("inline text", Some("rust"), "\n");
  }

  lemma InlineCodeNoLanguage()
    ensures ParseInline("`inline text`") == Ok(("inline text", None), "")
  {
    assert "`" + "inline text" + "`" + LanguageText(None) + "" == "`inline text`" by {
      assert "`" + "inline text" + "`" == "`inline text`";
    }
    ParseInlineExact("inline text", None, "");
  }

  lemma LinkExample()
    ensures ParseLink("[title](https://www.example.com)") == Ok(("title", "https://www.example.com"), "")
  {
    LinkSource();
    LabelAndUrlExact("[", "title", "https://www.example.com", "");
  }

  lemma LinkSource()
    ensures "[" + "title" + "](" + "https://www.example.com" + ")" + "" == "[title](https://www.example.com)"
  {
    assert "[" + "title" + "](" == "[title](";
    assert "[title](" + "https://www.example.com" + ")" == "[title](https://www.example.com)";
  }

  lemma ImageExample()
    ensures ParseImage("![alt text](image.jpg)") == Ok(("alt text", "image.jpg"), "")
  {
    assert "![" + "alt text" + "](" + "image.jpg" + ")" + "" == "![alt text](image.jpg)" by {
      assert "![" + "alt text" + "](" + "image.jpg" + ")" == "![alt text](image.jpg)";
    }
    LabelAndUrlExact("![", "alt text", "image.jpg", "");
  }

  // ---------------------------------------------------------------------------
  // Plain text.

  /** A `!` ends plain text only when a `[` follows it. */
  lemma PlainKeepsBang()
    ensures ParsePlain("plaintext!*") == Ok("plaintext!", "*")
  {
    assert "plaintext!" + "*" == "plaintext!*";
    assert PlainText("plaintext!");
    ParsePlainExact("plaintext!", "*");
  }

  lemma PlainStopsBeforeImage()
    ensures ParsePlain("plaintext![") == Ok("plaintext", "![")
  {
    assert "plaintext" + "![" == "plaintext![";
    assert PlainText("plaintext");
    ParsePlainExact("plaintext", "![");
  }

  lemma PlainRejectsImage()
    ensures ParsePlain("![ but wait theres more](jk)").Fail?
  {
    assert StartsWithMarker("![ but wait theres more](jk)");
  }

  // ---------------------------------------------------------------------------
  // Lines.

  lemma PlainLine()
    ensures ParseMarkdownText("here is some plaintext\n") == Ok([Plain("here is some plaintext")], "")
  {
    var toks := [Plain("here is some plaintext")];
    PlainLineSource();
    PlainLineWellFormed();
    TextRoundTrip(toks, "");
  }

  lemma PlainLineWellFormed()
    ensures WellFormed([Plain("here is some plaintext")])
  {
    PlainWords();
    PlainConcat("here is ", "some plaintext");
  }

  lemma PlainWords()
    ensures PlainText("here is ") && PlainText("some plaintext")
    ensures "here is " + "some plaintext" == "here is some plaintext"
  {
    assert PlainText("here is ");
    assert PlainText("some plaintext");
  }

  /** Two plain runs make one when the first does not end with `!`. */
  lemma PlainConcat(a: string, b: string)
    requires PlainText(a) && PlainText(b) && a[|a| - 1] != '!'
    ensures PlainText(a + b)
  {
    var t := a + b;
    forall i | 0 <= i < |t| - 1
      ensures !(t[i] == '!' && t[i + 1] == '[')
    {
      if i < |a| - 1 {
        assert t[i] == a[i] && t[i + 1] == a[i + 1];
      } else if i >= |a| {
        assert t[i] == b[i - |a|] && t[i + 1] == b[i + 1 - |a|];
      }
    }
  }

  lemma PlainLineSource()
    ensures Render([Plain("here is some plaintext")]) + "\n" + "" == "here is some plaintext\n"
  {
    var toks := [Plain("here is some plaintext")];
    assert toks[1..] == [];
    assert Render(toks) == "here is some plaintext";
    assert "here is some plaintext" + "\n" == "here is some plaintext\n";
  }

  lemma EmptyLine()
    ensures ParseMarkdownText("\n") == Ok([], "")
  {
  }

  // ---------------------------------------------------------------------------
  // Headings.

  /** Only one space is taken after the hashes; a second one starts the text. */
  lemma HeadingKeepsSpace()
    ensures ParseHeader("###  h3\n") == Ok((3, [Plain(" h3")]), "")
  {
    var text := [Plain(" h3")];
    assert text[1..] == [];
    assert Hashes(3) == "###";
    assert Hashes(3) + " " + Render(text) + "\n" + "" == "###  h3\n";
    assert PlainText(" h3");
    ParseHeaderExact(3, text, "");
  }

  lemma HeadingNeedsSpace()
    ensures ParseHeader("###h3").Fail?
  {
    var s := "###h3";
    SpanLenIs(IsHash, s, 3);
  }

  lemma EmptyHeading()
    ensures ParseHeader("# \n") == Ok((1, []), "")
  {
    assert Hashes(1) == "#";
    assert Hashes(1) + " " + Render([]) + "\n" + "" == "# \n";
    ParseHeaderExact(1, [], "");
  }

  // ---------------------------------------------------------------------------
  // Prefixed lines and code blocks.

  /** List markers inside quote lines are plain text of those lines: quotes hold no nested lists. */
  lemma QuoteKeepsDash()
    ensures ParseItems(QuoteLine, "> - this is a list inside a quote\n> - this the second list\n")
         == Ok([[Plain("- this is a list inside a quote")], [Plain("- this the second list")]], "")
  {
    var t1, t2 := "- this is a list inside a quote", "- this the second list";
    QuoteTexts();
    QuoteLines();
    TwoPlainItems(QuoteLine, ">", t1, ">", t2);
  }

  lemma QuoteTexts()
    ensures PlainText("- this is a list inside a quote") && PlainText("- this the second list")
  {
    QuoteWords();
    PlainConcat("- this is a list ", "inside a quote");
    PlainConcat("- this the ", "second list");
    assert "- this is a list " + "inside a quote" == "- this is a list inside a quote";
    assert "- this the " + "second list" == "- this the second list";
  }

  lemma QuoteWords()
    ensures PlainText("- this is a list ") && PlainText("inside a quote")
    ensures PlainText("- this the ") && PlainText("second list")
  {
    FirstQuoteWords();
    SecondQuoteWords();
  }

  lemma FirstQuoteWords()
    ensures PlainText("- this is a list ") && PlainText("inside a quote")
  {
    assert PlainText("- this is a list ");
    assert PlainText("inside a quote");
  }

  lemma SecondQuoteWords()
    ensures PlainText("- this the ") && PlainText("second list")
  {
    assert PlainText("- this the ");
    assert PlainText("second list");
  }

  lemma QuoteLines()
    ensures ItemLine(QuoteLine, ">", [Plain("- this is a list inside a quote")]) + ItemLine(QuoteLine, ">", [Plain("- this the second list")])
         == "> - this is a list inside a quote\n> - this the second list\n"
  {
    var t1, t2 := "- this is a list inside a quote", "- this the second list";
    RenderPlain(t1);
    RenderPlain(t2);
    QuoteLiterals();
  }

  lemma QuoteLiterals()
    ensures ">" + " " + "- this is a list inside a quote" + "\n" == "> - this is a list inside a quote\n"
    ensures ">" + " " + "- this the second list" + "\n" == "> - this the second list\n"
    ensures "> - this is a list inside a quote\n" + "> - this the second list\n"
         == "> - this is a list inside a quote\n> - this the second list\n"
  {
    QuoteFirst();
    QuoteSecond();
    QuoteBoth();
  }

  lemma QuoteFirst()
    ensures "> " + "- this is a list inside a quote" == "> - this is a list inside a quote"
  {
  }

  lemma QuoteSecond()
    ensures "> " + "- this the second list" == "> - this the second list"
  {
  }

  lemma QuoteBoth()
    ensures "> - this is a list inside a quote\n" + "> - this the second list\n"
         == "> - this is a list inside a quote\n> - this the second list\n"
  {
  }

  lemma OrderedTagExample()
    ensures ParseOrderedListTag("1234567. ") == Ok("1234567", "")
  {
    assert "1234567" + ". " + "" == "1234567. ";
    OrderedListTagExact("1234567", "");
  }

  lemma CodeBlockExample()
    ensures ParseCodeBlock("```bash\npip install foobar\n```") == Ok(("bash", "pip install foobar\n"), "")
  {
    assert "```" + "bash" + "\n" + "pip install foobar\n" + "```" + "" == "```bash\npip install foobar\n```";
    ParseCodeBlockExact("bash", "pip install foobar\n", "");
  }

  /** The numbers of an ordered list are kept apart from the items and never checked. */
  lemma OrderedListExample()
    ensures ParseItems(OrderedItem, "1. this is an element\n2. here is another\n")
         == Ok([[Plain("this is an element")], [Plain("here is another")]], "")
  {
    var t1, t2 := "this is an element", "here is another";
    OrderedTexts();
    OrderedLines();
    TwoPlainItems(OrderedItem, "1", t1, "2", t2);
  }

  lemma OrderedTexts()
    ensures PlainText("this is an element") && PlainText("here is another")
  {
    assert PlainText("this is an element");
    assert PlainText("here is another");
  }

  lemma OrderedLines()
    ensures ItemLine(OrderedItem, "1", [Plain("this is an element")]) + ItemLine(OrderedItem, "2", [Plain("here is another")])
         == "1. this is an element\n2. here is another\n"
  {
    RenderPlain("this is an element");
    RenderPlain("here is another");
    OrderedLiterals();
  }

  lemma OrderedLiterals()
    ensures "1" + ". " + "this is an element" + "\n" == "1. this is an element\n"
    ensures "2" + ". " + "here is another" + "\n" == "2. here is another\n"
    ensures "1. this is an element\n" + "2. here is another\n" == "1. this is an element\n2. here is another\n"
  {
    OrderedFirst();
    OrderedSecond();
    OrderedBoth();
  }

  lemma OrderedFirst()
    ensures "1. " + "this is an element" == "1. this is an element"
  {
  }

  lemma OrderedSecond()
    ensures "2. " + "here is another" == "2. here is another"
  {
  }

  lemma OrderedBoth()
    ensures "1. this is an element\n" + "2. here is another\n" == "1. this is an element\n2. here is another\n"
  {
  }

  /** Two prefixed lines of plain text are read as a list or quote of two items. */
  lemma TwoPlainItems(kind: ItemKind, m1: string, t1: string, m2: string, t2: string)
    requires ValidMarker(kind, m1) && ValidMarker(kind, m2) && PlainText(t1) && PlainText(t2)
    ensures ParseItems(kind, ItemLine(kind, m1, [Plain(t1)]) + ItemLine(kind, m2, [Plain(t2)]))
         == Ok([[Plain(t1)], [Plain(t2)]], "")
  {
    var markers, items := [m1, m2], [[Plain(t1)], [Plain(t2)]];
    assert WellFormed(items[0]) && WellFormed(items[1]);
    var ms, its := markers[1..], items[1..];
    assert ms[1..] == [] && its[1..] == [];
    assert ItemsSource(kind, ms, its) == ItemLine(kind, m2, items[1]) + [];
    assert ItemsSource(kind, markers, items) == ItemLine(kind, m1, items[0]) + ItemsSource(kind, ms, its);
    assert ItemsSource(kind, markers, items) + "" == ItemLine(kind, m1, items[0]) + ItemLine(kind, m2, items[1]);
    assert ParseItem(kind, "").Fail?;
    ItemsRoundTrip(kind, markers, items, "");
  }

  lemma RenderPlain(t: string)
    ensures Render([Plain(t)]) == t
  {
    assert [Plain(t)][1..] == [];
  }

  function SmallDoc(): seq<Markdown> {
    [ Heading(1, [Plain("Foobar")]), Text([]), CodeBlock("pip\n", Some("bash")) ]
  }

  lemma SmallDocExample()
    ensures ParseMarkdown("# Foobar\n\n```bash\npip\n```") == Ok(SmallDoc(), "")
  {
    SmallDocSource();
    SmallDocWellFormed();
    assert ParseBlock("").Fail?;
    DocRoundTrip(SmallDoc(), "");
  }

  lemma SmallDocSource()
    ensures RenderDoc(SmallDoc()) + "" == "# Foobar\n\n```bash\npip\n```"
  {
    var doc := SmallDoc();
    assert doc[0].text[1..] == [];
    assert Hashes(1) == "#";
    var a, b, c := RenderBlock(doc[0]), RenderBlock(doc[1]), RenderBlock(doc[2]);
    assert a == "# Foobar\n";
    assert b == "\n";
    assert c == "```bash\npip\n```";
    assert doc[1..][1..][1..] == [];
    assert RenderDoc(doc) == a + (b + (c + []));
  }

  lemma SmallDocWellFormed()
    ensures WellFormedDoc(SmallDoc())
  {
    var doc := SmallDoc();
    HeadingFoobar();
    EmptyTextLine();
    BashBlock();
    assert doc[0] == Heading(1, [Plain("Foobar")]) && doc[1] == Text([]) && doc[2] == CodeBlock("pip\n", Some("bash"));
  }

  lemma HeadingFoobar()
    ensures WellFormedBlock(Heading(1, [Plain("Foobar")]))
  {
    assert PlainText("Foobar");
  }

  /** An empty line is a text block with no tokens. */
  lemma EmptyTextLine()
    ensures WellFormedBlock(Text([]))
  {
    assert Render([]) + "\n" == "\n";
  }

  lemma BashBlock()
    ensures WellFormedBlock(CodeBlock("pip\n", Some("bash")))
  {
    assert NoneIn("pip\n", {'`'});
  }
}
