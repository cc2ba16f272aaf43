/**
 The inline layer of the Markdown parser: the content of one line becomes a
 sequence of inline tokens (plain runs, bold, italic, inline code, images
 and links), and the line must end with a newline.
 */
module Inline {
  import opened Combinators

  datatype MarkdownInline =
    | Link(tag: string, url: string)
    | Image(tag: string, url: string)
    | InlineCode(code: string, language: Option<string>)
    | Bold(text: string)
    | Italic(text: string)
    | Plain(text: string)

  /** The decoded content of one line, in reading order. */
  type MarkdownText = seq<MarkdownInline>

  /** Characters the plain parser refuses to start a character at (besides the pair `![`). */
  const PlainStops: set<char> := {'*', '`', '[', '\n'}

  /** The characters of `is_not(" \t\r\n")`, which end an inline-code language tag. */
  const LanguageStops: set<char> := {' ', '\t', '\r', '\n'}

  // ---------------------------------------------------------------------------
  // Source forms: how each token is written in the line it was parsed from.

  function LanguageText(language: Option<string>): string {
    match language
    case None => []
    case Some(l) => l
  }

  function Source(tok: MarkdownInline): string {
    match tok
    case Link(tag, url) => "[" + tag + "](" + url + ")"
    case Image(tag, url) => "![" + tag + "](" + url + ")"
    case InlineCode(code, language) => "`" + code + "`" + LanguageText(language)
    case Bold(text) => "**" + text + "**"
    case Italic(text) => "*" + text + "*"
    case Plain(text) => text
  }

  /** The concatenated source forms of a token sequence. */
  function Render(toks: MarkdownText): string {
    if toks == [] then [] else Source(toks[0]) + Render(toks[1..])
  }

  // ---------------------------------------------------------------------------
  // What a well-formed token and a well-formed line are.

  /** A run the plain parser can return: non-empty, no marker character and no `![` inside. */
  predicate PlainText(t: string) {
    && t != []
    && NoneIn(t, PlainStops)
    && forall i :: 0 <= i < |t| - 1 ==> !(t[i] == '!' && t[i + 1] == '[')
  }

  predicate ValidLinkParts(tag: string, url: string) {
    tag != [] && NoneIn(tag, {']'}) && url != [] && NoneIn(url, {')'})
  }

  predicate ValidLanguage(language: Option<string>) {
    language.Some? ==> language.value != [] && NoneIn(language.value, LanguageStops)
  }

  predicate ValidToken(tok: MarkdownInline) {
    match tok
    case Link(tag, url) => ValidLinkParts(tag, url)
    case Image(tag, url) => ValidLinkParts(tag, url)
    case InlineCode(code, language) => code != [] && NoneIn(code, {'`'}) && ValidLanguage(language)
    case Bold(text) => text != [] && NoneIn(text, {'*'})
    case Italic(text) => text != [] && NoneIn(text, {'*'})
    case Plain(text) => PlainText(text)
  }

  /**
   Whether `b` can directly follow `a` in a decoded line: plain runs are
   maximal (never two in a row, and a run ending in `!` cannot precede a
   link, whose `[` would have made `![`), and an inline-code token's language
   tag always stops at whitespace, so only a plain run starting with
   whitespace can follow it.
   */
  predicate Adjacent(a: MarkdownInline, b: MarkdownInline) {
    && !(a.Plain? && b.Plain?)
    && !(a.Plain? && b.Link? && a.text != [] && a.text[|a.text| - 1] == '!')
    && (a.InlineCode? ==> b.Plain? && b.text != [] && b.text[0] in LanguageStops)
  }

  /**
   Whether `next` can follow the source of `tok` without `tok`'s parser
   reading into it: a plain run must be stopped by a marker (or the end), and
   a language tag by whitespace (or the end). The other tokens end with their
   own closing delimiter.
   */
  predicate FitsBefore(tok: MarkdownInline, next: string) {
    match tok
    case Plain(t) => PlainFits(t, next)
    case InlineCode(_, _) => next == [] || next[0] in LanguageStops
    case _ => true
  }

  predicate WellFormed(toks: MarkdownText) {
    && (forall i :: 0 <= i < |toks| ==> ValidToken(toks[i]))
    && (forall i :: 0 <= i < |toks| - 1 ==> Adjacent(toks[i], toks[i + 1]))
  }

  // ---------------------------------------------------------------------------
  // Plain text.

  /** Position `i` of `s` begins one of the markers `*`, `` ` ``, `[`, `![` or a newline. */
  predicate MarkerAt(s: string, i: nat) {
    i < |s| && (s[i] in PlainStops || (s[i] == '!' && i + 1 < |s| && s[i + 1] == '['))
  }

  /** The input begins with one of the markers. */
  predicate StartsWithMarker(s: string) {
    MarkerAt(s, 0)
  }

  /** Whether a position begins a marker depends only on the text from that position on. */
  lemma MarkerAtSuffix(s: string, k: nat, i: nat)
    requires k <= |s|
    ensures MarkerAt(s, k + i) <==> MarkerAt(s[k..], i)
  {
    var u := s[k..];
    if k + i < |s| {
      assert u[i] == s[k + i];
      if k + i + 1 < |s| {
        assert u[i + 1] == s[k + i + 1];
      }
    }
  }

  /** `alt((tag("*"), tag("`"), tag("["), tag("!["), tag("\n")))`. */
  function MarkerTag(s: string): (r: Result<string>)
    ensures r.Ok? <==> StartsWithMarker(s)
  {
    Alt(Tag("*", s), Alt(Tag("`", s), Alt(Tag("[", s), Alt(Tag("![", s), Tag("\n", s)))))
  }

  /** `preceded(not(marker), take(1))`: one character at a position that does not begin a marker. */
  function PlainChunk(s: string): (r: Result<string>)
    ensures r.Ok? <==> s != [] && !StartsWithMarker(s)
    ensures r.Ok? ==> |r.value| == 1 && s == r.value + r.rest
  {
    if MarkerTag(s).Ok? then Fail else Take(1, s)
  }

  /**
   The scan the plain parser performs over `t + rest`: no position inside `t`
   begins a marker, and the scan halts at `rest`, which is empty or begins one.
   */
  predicate PlainScan(t: string, rest: string) {
    && (forall i: nat :: i < |t| ==> !MarkerAt(t + rest, i))
    && (rest == [] || StartsWithMarker(rest))
  }

  /**
   What may follow a plain run `t`: nothing, or a marker that does not
   complete a `![` with `t`'s last character.
   */
  predicate PlainFits(t: string, next: string) {
    && (next == [] || StartsWithMarker(next))
    && !(t != [] && t[|t| - 1] == '!' && next != [] && next[0] == '[')
  }

  /** `many0(PlainChunk)` with the chunks joined, as `vec.join("")` does. */
  function PlainChunks(s: string): (r: (string, string))
    decreases |s|
    ensures s == r.0 + r.1
    ensures PlainScan(r.0, r.1)
  {
    var chunk := PlainChunk(s);
    if chunk.Fail? then
      ([], s)
    else
      var tail := PlainChunks(chunk.rest);
      PlainScanCons(chunk.value, tail.0, tail.1);
      Assoc(chunk.value, tail.0, tail.1);
      (chunk.value + tail.0, tail.1)
  }

  /** Extending a scan by one character that does not begin a marker. */
  lemma PlainScanCons(c: string, t: string, rest: string)
    requires |c| == 1 && PlainScan(t, rest) && !StartsWithMarker(c + (t + rest))
    ensures PlainScan(c + t, rest)
  {
    var s := c + (t + rest);
    assert (c + t) + rest == s;
    assert s[1..] == t + rest;
    forall i: nat | i < |c + t|
      ensures !MarkerAt(s, i)
    {
      if i > 0 {
        MarkerAtSuffix(s, 1, i - 1);
      }
    }
  }

  /** What a non-empty scan has read is plain text, and what stops it fits after that text. */
  lemma PlainScanText(t: string, rest: string)
    requires t != [] && PlainScan(t, rest)
    ensures PlainText(t) && PlainFits(t, rest)
  {
    var s := t + rest;
    forall i | 0 <= i < |t|
      ensures t[i] !in PlainStops
    {
      assert !MarkerAt(s, i) && s[i] == t[i];
    }
    forall i | 0 <= i < |t| - 1
      ensures !(t[i] == '!' && t[i + 1] == '[')
    {
      assert !MarkerAt(s, i) && s[i] == t[i] && s[i + 1] == t[i + 1];
    }
    if rest != [] {
      assert !MarkerAt(s, |t| - 1) && s[|t| - 1] == t[|t| - 1] && s[|t|] == rest[0];
    }
  }

  /** Conversely, plain text the scan cannot break is scanned in one piece. */
  lemma PlainTextScan(t: string, rest: string)
    requires PlainText(t) && PlainFits(t, rest)
    ensures PlainScan(t, rest)
  {
    var s := t + rest;
    forall i: nat | i < |t|
      ensures !MarkerAt(s, i)
    {
      assert s[i] == t[i];
      if i < |t| - 1 {
        assert s[i + 1] == t[i + 1];
      } else if rest != [] {
        assert s[i + 1] == rest[0];
      }
    }
  }

  /** `parse_plain`: `many1` of `PlainChunk`, joined. */
  function ParsePlain(s: string): (r: Result<string>)
    ensures r.Ok? <==> s != [] && !StartsWithMarker(s)
    ensures r.Ok? ==> s == r.value + r.rest && PlainScan(r.value, r.rest)
    ensures r.Ok? ==> PlainText(r.value) && PlainFits(r.value, r.rest)
  {
    match PlainChunk(s)
    case Fail => Fail
    case Ok(c, rest) =>
      var tail := PlainChunks(rest);
      PlainScanCons(c, tail.0, tail.1);
      PlainScanText(c + tail.0, tail.1);
      Assoc(c, tail.0, tail.1);
      Ok(c + tail.0, tail.1)
  }

  /** Two scans of the same input stop at the same place. */
  lemma PlainScanUnique(t1: string, rest1: string, t2: string, rest2: string)
    requires t1 + rest1 == t2 + rest2
    requires PlainScan(t1, rest1) && PlainScan(t2, rest2)
    ensures t1 == t2 && rest1 == rest2
  {
    var s := t1 + rest1;
    assert rest1 == s[|t1|..] && rest2 == s[|t2|..];
    MarkerAtSuffix(s, |t1|, 0);
    MarkerAtSuffix(s, |t2|, 0);
    assert |t1| == |t2|;
    assert t1 == s[..|t1|] && t2 == s[..|t2|];
  }

  /** `parse_plain` returns exactly the run that the scan describes. */
  lemma ParsePlainExact(t: string, rest: string)
    requires PlainText(t) && PlainFits(t, rest)
    ensures ParsePlain(t + rest) == Ok(t, rest)
  {
    var s := t + rest;
    PlainTextScan(t, rest);
    var r := ParsePlain(s);
    PlainScanUnique(r.value, r.rest, t, rest);
  }

  // ---------------------------------------------------------------------------
  // Bold, italic, inline code, links and images.

  /** `parse_bold`: `delimited(tag("**"), is_not("**"), tag("**"))`; `is_not` stops at any single `*`. */
  function ParseBold(s: string): (r: Result<string>)
    ensures r.Ok? ==> s == "**" + r.value + "**" + r.rest
    ensures r.Ok? ==> r.value != [] && NoneIn(r.value, {'*'})
  {
    Delimited("**", {'*'}, "**", s)
  }

  lemma ParseBoldExact(t: string, rest: string)
    requires t != [] && NoneIn(t, {'*'})
    ensures ParseBold("**" + t + "**" + rest) == Ok(t, rest)
  {
    DelimitedExact("**", {'*'}, "**", t, rest);
  }

  /** `parse_italic`: `delimited(tag("*"), is_not("*"), tag("*"))`. */
  function ParseItalic(s: string): (r: Result<string>)
    ensures r.Ok? ==> s == "*" + r.value + "*" + r.rest
    ensures r.Ok? ==> r.value != [] && NoneIn(r.value, {'*'})
  {
    Delimited("*", {'*'}, "*", s)
  }

  lemma ParseItalicExact(t: string, rest: string)
    requires t != [] && NoneIn(t, {'*'})
    ensures ParseItalic("*" + t + "*" + rest) == Ok(t, rest)
  {
    DelimitedExact("*", {'*'}, "*", t, rest);
  }

  /**
   The language part of `parse_inline`:
   `opt(delimited(tag(""), is_not(" \t\r\n"), not(is_not(" \t\r\n"))))`.
   */
  function ParseLanguage(s: string): (r: (Option<string>, string))
    ensures s == LanguageText(r.0) + r.1
    ensures ValidLanguage(r.0)
    ensures r.0.None? <==> s == [] || s[0] in LanguageStops
    ensures r.1 == [] || r.1[0] in LanguageStops
  {
    var run :=
      match Tag("", s)
      case Fail => Fail
      case Ok(_, afterEmpty) =>
        match IsNot(LanguageStops, afterEmpty)
        case Fail => Fail
        case Ok(l, afterRun) =>
          // `not(p)` succeeds, consuming nothing, exactly when `p` fails
          if IsNot(LanguageStops, afterRun).Ok? then Fail else Ok(l, afterRun);
    match run
    case Fail => (None, s)
    case Ok(l, rest) => (Some(l), rest)
  }

  lemma ParseLanguageExact(language: Option<string>, rest: string)
    requires ValidLanguage(language)
    requires rest == [] || rest[0] in LanguageStops
    ensures ParseLanguage(LanguageText(language) + rest) == (language, rest)
  {
    if language.Some? {
      IsNotExact(LanguageStops, language.value, rest);
    } else {
      assert LanguageText(language) + rest == rest;
    }
  }

  /** `parse_inline`: a backtick-delimited code span and its optional language tag. */
  function ParseInline(s: string): (r: Result<(string, Option<string>)>)
    ensures r.Ok? ==> s == "`" + r.value.0 + "`" + LanguageText(r.value.1) + r.rest
    ensures r.Ok? ==> r.value.0 != [] && NoneIn(r.value.0, {'`'}) && ValidLanguage(r.value.1)
    ensures r.Ok? ==> r.rest == [] || r.rest[0] in LanguageStops
  {
    match Delimited("`", {'`'}, "`", s)
    case Fail => Fail
    case Ok(code, afterCode) =>
      var (language, rest) := ParseLanguage(afterCode);
      Assoc("`" + code + "`", LanguageText(language), rest);
      Ok((code, language), rest)
  }

  lemma ParseInlineExact(code: string, language: Option<string>, rest: string)
    requires code != [] && NoneIn(code, {'`'}) && ValidLanguage(language)
    requires rest == [] || rest[0] in LanguageStops
    ensures ParseInline("`" + code + "`" + LanguageText(language) + rest) == Ok((code, language), rest)
  {
    var after := LanguageText(language) + rest;
    var s := "`" + code + "`" + LanguageText(language) + rest;
    Assoc("`" + code + "`", LanguageText(language), rest);
    DelimitedExact("`", {'`'}, "`", code, after);
    assert Delimited("`", {'`'}, "`", s) == Ok(code, after);
    ParseLanguageExact(language, rest);
  }

  /**
   Once a code span is closed, the language is whatever `ParseLanguage` finds
   right after it, so it is absent exactly when the span is followed by
   whitespace or by the end of the input.
   */
  lemma ParseInlineLanguage(code: string, after: string)
    requires code != [] && NoneIn(code, {'`'})
    ensures ParseInline("`" + code + "`" + after) == Ok((code, ParseLanguage(after).0), ParseLanguage(after).1)
    ensures ParseInline("`" + code + "`" + after).value.1.None? <==> after == [] || after[0] in LanguageStops
  {
    DelimitedExact("`", {'`'}, "`", code, after);
  }

  /**
   `pair(delimited(tag(open), is_not("]"), tag("]")), delimited(tag("("), is_not(")"), tag(")")))`,
   the shape shared by links (`open` = `[`) and images (`open` = `![`).
   */
  function LabelAndUrl(open: string, s: string): (r: Result<(string, string)>)
    ensures r.Ok? ==> s == open + r.value.0 + "](" + r.value.1 + ")" + r.rest
    ensures r.Ok? ==> ValidLinkParts(r.value.0, r.value.1)
  {
    match Delimited(open, {']'}, "]", s)
    case Fail => Fail
    case Ok(tag, afterTag) =>
      match Delimited("(", {')'}, ")", afterTag)
      case Fail => Fail
      case Ok(url, rest) =>
        LinkSplit(open, tag, url, rest);
        Ok((tag, url), rest)
  }

  /** The source of a link, split after its closing bracket. */
  lemma LinkSplit(open: string, tag: string, url: string, rest: string)
    ensures open + tag + "]" + ("(" + url + ")" + rest) == open + tag + "](" + url + ")" + rest
  {
    var p := open + tag;
    assert p + "]" + ("(" + url + ")" + rest) == p + "](" + url + ")" + rest by {
      Assoc(p + "]", "(" + url + ")", rest);
      Assoc(p + "]", "(" + url, ")");
      Assoc(p + "]", "(", url);
      Assoc(p, "]", "(");
    }
  }

  lemma LabelAndUrlExact(open: string, tag: string, url: string, rest: string)
    requires ValidLinkParts(tag, url)
    ensures LabelAndUrl(open, open + tag + "](" + url + ")" + rest) == Ok((tag, url), rest)
  {
    var afterTag := "(" + url + ")" + rest;
    assert open + tag + "](" + url + ")" + rest == open + tag + "]" + afterTag;
    DelimitedExact(open, {']'}, "]", tag, afterTag);
    DelimitedExact("(", {')'}, ")", url, rest);
  }

  /** `parse_link`: `[tag](url)`. */
  function ParseLink(s: string): (r: Result<(string, string)>)
    ensures r.Ok? ==> s == "[" + r.value.0 + "](" + r.value.1 + ")" + r.rest
    ensures r.Ok? ==> ValidLinkParts(r.value.0, r.value.1)
  {
    LabelAndUrl("[", s)
  }

  /** `parse_image`: `![tag](url)`. */
  function ParseImage(s: string): (r: Result<(string, string)>)
    ensures r.Ok? ==> s == "![" + r.value.0 + "](" + r.value.1 + ")" + r.rest
    ensures r.Ok? ==> ValidLinkParts(r.value.0, r.value.1)
  {
    LabelAndUrl("![", s)
  }

  // ---------------------------------------------------------------------------
  // One token, a run of tokens, a line.

  /** `parse_markdown_inline`: the alternatives plain, bold, italic, inline code, image, link, in that order. */
  function ParseMarkdownInline(s: string): (r: Result<MarkdownInline>)
    ensures r.Ok? ==> s == Source(r.value) + r.rest && ValidToken(r.value) && FitsBefore(r.value, r.rest)
    ensures r.Ok? ==> |r.rest| < |s|
  {
    Alt(ParsePlain(s).Map(t => Plain(t)),
    Alt(ParseBold(s).Map(t => Bold(t)),
    Alt(ParseItalic(s).Map(t => Italic(t)),
    Alt(ParseInline(s).Map((c: (string, Option<string>)) => InlineCode(c.0, c.1)),
    Alt(ParseImage(s).Map((p: (string, string)) => Image(p.0, p.1)),
        ParseLink(s).Map((p: (string, string)) => Link(p.0, p.1)))))))
  }

  /** `many0(parse_markdown_inline)`: tokens are taken until the next one fails to parse. */
  function ParseInlines(s: string): (r: (MarkdownText, string))
    decreases |s|
    ensures s == Render(r.0) + r.1
    ensures ParseMarkdownInline(r.1).Fail?
    ensures r.0 != [] ==> ParseMarkdownInline(s).Ok? && ParseMarkdownInline(s).value == r.0[0]
  {
    match ParseMarkdownInline(s)
    case Fail => ([], s)
    case Ok(tok, rest) =>
      var tail := ParseInlines(rest);
      RenderCons(tok, tail.0, tail.1);
      ([tok] + tail.0, tail.1)
  }

  lemma RenderCons(tok: MarkdownInline, toks: MarkdownText, rest: string)
    ensures Render([tok] + toks) + rest == Source(tok) + (Render(toks) + rest)
  {
    assert ([tok] + toks)[1..] == toks;
  }

  /** `many0` takes no token at a newline. */
  lemma InlinesAtNewline(next: string)
    requires next != [] && next[0] == '\n'
    ensures ParseInlines(next) == ([], next)
  {
    NoTokenAtNewline(next);
  }

  /** One step of `many0`: a valid token that fits before what follows is taken, and the run goes on from there. */
  lemma InlinesStep(tok: MarkdownInline, after: string)
    requires ValidToken(tok) && FitsBefore(tok, after)
    ensures ParseInlines(Source(tok) + after) == ([tok] + ParseInlines(after).0, ParseInlines(after).1)
  {
    ParseMarkdownInlineExact(tok, after);
  }

  /** `parse_markdown_text`: the tokens of one line, which must end with a newline. */
  function ParseMarkdownText(s: string): (r: Result<MarkdownText>)
    ensures r.Ok? ==> s == Render(r.value) + "\n" + r.rest
  {
    var (toks, afterToks) := ParseInlines(s);
    match Tag("\n", afterToks)
    case Fail => Fail
    case Ok(_, rest) =>
      LineSplit(s, Render(toks), afterToks, rest);
      Ok(toks, rest)
  }

  /** The tokens' source and the newline after them lie side by side in the input. */
  lemma LineSplit(s: string, line: string, afterToks: string, rest: string)
    requires s == line + afterToks && afterToks == "\n" + rest
    ensures s == line + "\n" + rest
  {
    Assoc(line, "\n", rest);
  }

  // ---------------------------------------------------------------------------
  // One token: the parse is exactly the token whose source form starts the input.

  /** Every valid token's source form is non-empty, and only a plain run can start with whitespace. */
  lemma SourceHead(tok: MarkdownInline)
    requires ValidToken(tok)
    ensures Source(tok) != [] && Source(tok)[0] != '\n'
    ensures !tok.Plain? ==> Source(tok)[0] in {'[', '!', '`', '*'}
    ensures tok.Link? ==> Source(tok)[0] == '['
  {
  }

  /** A valid token followed by something that fits after it is parsed back as that token. */
  lemma ParseMarkdownInlineExact(tok: MarkdownInline, next: string)
    requires ValidToken(tok) && FitsBefore(tok, next)
    ensures ParseMarkdownInline(Source(tok) + next) == Ok(tok, next)
  {
    var s := Source(tok) + next;
    match tok
    case Plain(t) =>
      ParsePlainExact(t, next);
    case Bold(t) =>
      assert s[0] == '*';
      ParseBoldExact(t, next);
    case Italic(t) =>
      assert s[0] == '*' && s[1] == t[0];
      ParseItalicExact(t, next);
    case InlineCode(code, language) =>
      assert s[0] == '`';
      ParseInlineExact(code, language, next);
    case Image(tag, url) =>
      assert s[0] == '!' && s[1] == '[';
      LabelAndUrlExact("![", tag, url, next);
    case Link(tag, url) =>
      assert s[0] == '[';
      LabelAndUrlExact("[", tag, url, next);
  }

  /** No token starts at a newline, so a line's token run always stops at its end. */
  lemma NoTokenAtNewline(s: string)
    requires s != [] && s[0] == '\n'
    ensures ParseMarkdownInline(s).Fail?
  {
    var r := ParseMarkdownInline(s);
    if r.Ok? {
      SourceHead(r.value);
    }
  }

  /**
   For valid tokens, `b`'s source form (followed by whatever fits after `b`)
   fits after `a` exactly when `b` may follow `a` in a decoded line.
   */
  lemma FitsIffAdjacent(a: MarkdownInline, b: MarkdownInline, next: string)
    requires ValidToken(a) && ValidToken(b) && FitsBefore(b, next)
    ensures FitsBefore(a, Source(b) + next) <==> Adjacent(a, b)
  {
    var rest := Source(b) + next;
    SourceHead(b);
    assert rest[0] == Source(b)[0];
    if b.Plain? {
      if |b.text| >= 2 {
        assert rest[1] == b.text[1];
      } else if next != [] {
        assert rest[1] == next[0];
      }
    } else if b.Image? {
      assert rest[1] == '[';
    }
  }

  // ---------------------------------------------------------------------------
  // A line: the decoded tokens are well formed, and well-formed tokens are decoded back.

  /** A well-formed sequence stays well formed when a token that may precede its head is put in front. */
  lemma WellFormedCons(tok: MarkdownInline, toks: MarkdownText)
    requires ValidToken(tok) && WellFormed(toks)
    requires toks != [] ==> Adjacent(tok, toks[0])
    ensures WellFormed([tok] + toks)
  {
    var all := [tok] + toks;
    forall i | 1 <= i < |all|
      ensures all[i] == toks[i - 1]
    {
    }
  }

  /** The tokens `many0(parse_markdown_inline)` returns are well formed. */
  lemma {:induction false} InlinesWellFormed(s: string)
    decreases |s|
    ensures WellFormed(ParseInlines(s).0)
  {
    match ParseMarkdownInline(s)
    case Fail =>
    case Ok(tok, rest) =>
      var tail := ParseInlines(rest);
      InlinesWellFormed(rest);
      if tail.0 != [] {
        var next := ParseMarkdownInline(rest);
        FitsIffAdjacent(tok, next.value, next.rest);
      }
      WellFormedCons(tok, tail.0);
  }

  /** The tail of a well-formed sequence ending a line fits after its head. */
  lemma {:induction false} RenderedFits(toks: MarkdownText, next: string)
    requires toks != [] && WellFormed(toks)
    requires next != [] && next[0] == '\n'
    ensures FitsBefore(toks[0], Render(toks[1..]) + next)
  {
    var tail := toks[1..];
    if tail == [] {
      assert Render(tail) + next == next;
    } else {
      assert WellFormed(tail) by {
        forall i | 0 <= i < |tail| - 1
          ensures Adjacent(tail[i], tail[i + 1])
        {
          assert Adjacent(toks[i + 1], toks[i + 2]);
        }
      }
      RenderedFits(tail, next);
      FitsIffAdjacent(toks[0], tail[0], Render(tail[1..]) + next);
      assert Adjacent(toks[0], toks[1]);
    }
  }

  /** A well-formed token sequence followed by a newline is read back token for token. */
  lemma {:induction false} InlinesRoundTrip(toks: MarkdownText, next: string)
    requires WellFormed(toks)
    requires next != [] && next[0] == '\n'
    ensures ParseInlines(Render(toks) + next) == (toks, next)
  {
    if toks == [] {
      assert Render(toks) + next == next;
      InlinesAtNewline(next);
    } else {
      var tok, tail := toks[0], toks[1..];
      assert [tok] + tail == toks;
      var after := Render(tail) + next;
      WellFormedTail(toks);
      RenderedFits(toks, next);
      Assoc(Source(tok), Render(tail), next);
      assert Render(toks) + next == Source(tok) + after;
      InlinesRoundTrip(tail, next);
      assert ParseInlines(after) == (tail, next);
      InlinesStep(tok, after);
      assert ParseInlines(Source(tok) + after) == ([tok] + tail, next);
    }
  }

  /** `parse_markdown_text` only ever yields well-formed token sequences. */
  lemma TextWellFormed(s: string)
    requires ParseMarkdownText(s).Ok?
    ensures WellFormed(ParseMarkdownText(s).value)
  {
    InlinesWellFormed(s);
  }

  /** Every well-formed token sequence, written out and ended with a newline, is decoded back. */
  lemma TextRoundTrip(toks: MarkdownText, rest: string)
    requires WellFormed(toks)
    ensures ParseMarkdownText(Render(toks) + "\n" + rest) == Ok(toks, rest)
  {
    var next := "\n" + rest;
    Assoc(Render(toks), "\n", rest);
    InlinesRoundTrip(toks, next);
    assert ParseInlines(Render(toks) + "\n" + rest) == (toks, next);
  }

  /** A line without a terminating newline is rejected. */
  lemma MissingNewlineFails(s: string)
    requires '\n' !in s
    ensures ParseMarkdownText(s).Fail?
  {
  }

  // ---------------------------------------------------------------------------
  // Dropping the start of a line.

  /** A character that no token starts with and that cannot be the `!` of an image: none of the markers and no `!`. */
  predicate StartsNoToken(c: char) {
    c !in PlainStops && c != '!'
  }

  lemma WellFormedTail(toks: MarkdownText)
    requires WellFormed(toks) && toks != []
    ensures WellFormed(toks[1..])
  {
    var tail := toks[1..];
    assert forall i :: 0 <= i < |tail| ==> tail[i] == toks[i + 1];
  }

  lemma LineUnfold(toks: MarkdownText, rest: string)
    requires toks != []
    ensures Render(toks) + "\n" + rest == Source(toks[0]) + (Render(toks[1..]) + "\n" + rest)
  {
    Assoc(Source(toks[0]), Render(toks[1..]), "\n");
    Assoc(Source(toks[0]), Render(toks[1..]) + "\n", rest);
  }

  /** A written line starts with a character that starts no token only when its first token is plain. */
  lemma LeadStartsToken(toks: MarkdownText, rest: string)
    requires WellFormed(toks)
    ensures (toks == [] || !toks[0].Plain?) ==> !StartsNoToken((Render(toks) + "\n" + rest)[0])
  {
    if toks != [] {
      SourceHead(toks[0]);
      LineUnfold(toks, rest);
    }
  }

  /** The character right after a leading plain run starts a token or is the newline. */
  lemma PlainRunStop(toks: MarkdownText, rest: string)
    requires WellFormed(toks) && toks != [] && toks[0].Plain?
    ensures |toks[0].text| < |Render(toks) + "\n" + rest|
    ensures !StartsNoToken((Render(toks) + "\n" + rest)[|toks[0].text|])
  {
    var tail := toks[1..];
    LineUnfold(toks, rest);
    WellFormedTail(toks);
    if tail != [] {
      assert Adjacent(toks[0], toks[1]) && tail[0] == toks[1];
    }
    LeadStartsToken(tail, rest);
  }

  lemma PlainSuffix(x: string, p: nat)
    requires PlainText(x) && p < |x|
    ensures PlainText(x[p..]) && x[p..][|x| - p - 1] == x[|x| - 1]
  {
    var y := x[p..];
    assert forall i :: 0 <= i < |y| ==> y[i] == x[p + i];
  }

  /** What is left of a line when a leading plain run loses its first `p` characters. */
  lemma DropInPlain(toks: MarkdownText, rest: string, p: nat) returns (short: MarkdownText)
    requires WellFormed(toks) && toks != [] && toks[0].Plain? && p < |toks[0].text|
    ensures WellFormed(short)
    ensures Render(short) + "\n" + rest == toks[0].text[p..] + (Render(toks[1..]) + "\n" + rest)
  {
    var x, tail := toks[0].text, toks[1..];
    WellFormedTail(toks);
    PlainSuffix(x, p);
    var y := x[p..];
    short := [Plain(y)] + tail;
    if tail != [] {
      assert Adjacent(toks[0], toks[1]) && tail[0] == toks[1];
    }
    WellFormedCons(Plain(y), tail);
    LineUnfold(short, rest);
    assert short[0] == Plain(y) && short[1..] == tail;
  }

  lemma SliceConcat(x: string, t: string, p: nat)
    requires p <= |x|
    ensures (x + t)[p..] == x[p..] + t
  {
  }

  /**
   Removing characters that start no token from the start of a well-formed line leaves a
   well-formed line: they can only have belonged to a leading plain run.
   */
  lemma DropNoTokenPrefix(toks: MarkdownText, rest: string, p: nat) returns (short: MarkdownText)
    requires WellFormed(toks)
    requires p <= |Render(toks) + "\n" + rest|
    requires forall i :: 0 <= i < p ==> StartsNoToken((Render(toks) + "\n" + rest)[i])
    ensures WellFormed(short) && Render(short) + "\n" + rest == (Render(toks) + "\n" + rest)[p..]
  {
    var s := Render(toks) + "\n" + rest;
    if p == 0 {
      short := toks;
      assert s[0..] == s;
      return;
    }
    assert StartsNoToken(s[0]);
    LeadStartsToken(toks, rest);
    assert toks != [] && toks[0].Plain?;
    var x := toks[0].text;
    PlainRunStop(toks, rest);
    assert p <= |x|;
    var t := Render(toks[1..]) + "\n" + rest;
    LineUnfold(toks, rest);
    SliceConcat(x, t, p);
    if p == |x| {
      short := toks[1..];
      WellFormedTail(toks);
      assert x[p..] == [];
    } else {
      short := DropInPlain(toks, rest, p);
    }
  }

  /** The first `p` characters of `s` start no token. */
  predicate NoTokenPrefix(s: string, p: nat) {
    p <= |s| && forall i :: 0 <= i < p ==> StartsNoToken(s[i])
  }

  /** A line stays a line once characters that start no token are dropped from its start. */
  lemma ParseAfterNoTokenPrefix(s: string, p: nat)
    requires ParseMarkdownText(s).Ok? && NoTokenPrefix(s, p)
    ensures ParseMarkdownText(s[p..]).Ok?
  {
    var r := ParseMarkdownText(s);
    TextWellFormed(s);
    var short := DropNoTokenPrefix(r.value, r.rest, p);
    TextRoundTrip(short, r.rest);
  }
}
