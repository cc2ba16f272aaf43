# doubledown Markdown parser, modelled in Dafny

This project models the Markdown parser of doubledown (`src/parser/markdown.rs`).
The parser is written with the nom parser-combinator library. It reads a
document as a sequence of blocks: headings, ordered lists, unordered lists,
quotes, fenced code blocks and plain text lines. Each line's text is read as a
sequence of inline tokens: links, images, inline code, bold, italic and plain
runs.

The parser is pure, so the model is made of functions and lemmas:

- `combinators.dfy` (module `Combinators`) restates the nom primitives the
  parser uses: `tag`, `take`, `take_while1`, `is_not`, `delimited`, `alt` and
  `map`. It uses the "complete input" semantics. A parser returns either
  `Ok(value, rest)` or `Fail`.
- `inline.dfy` (module `Inline`) holds the inline parsers and the source form of
  each token. `Render` writes a token sequence back, and `WellFormed` says which
  sequences the parser can produce. Each token parser is proved sound (what it
  returns has the right shape) and complete (a well-formed token written out is
  read back exactly). For whole lines, `TextWellFormed` and `TextRoundTrip`
  connect `parse_markdown_text` with `Render` in both directions.
- `block.dfy` (module `Block`) holds the line-prefix parsers, the list, quote,
  code-block and text alternatives, and `parse_markdown`. `RenderBlock` and
  `RenderDoc` write a document back in a canonical form: ordered items are
  numbered `1`, and a code block without a language gets the fence text " ".
  - `DocRoundTrip` proves that every non-empty `WellFormedDoc` is read back from
    its canonical rendering.
  - `MarkdownSound` proves that every document `parse_markdown` returns is
    `WellFormedDoc`.
  - `Reparse` combines the two: rendering a parsed document and parsing it again
    gives the same document.
- `examples.dfy` (module `Examples`) states inputs and results from the parser's
  unit tests as instances of the general lemmas. Each uses the test's own input,
  except the document test, which is stated as a shorter document of the same
  shape.

Where the code and its prose description differ, the model follows the code:

- The bodies of bold, italic, inline-code, link and image tokens may contain a
  newline. `is_not` only excludes the closing character.
- `is_not("**")` excludes every `*`, so a bold body holds no single `*`.
- A fence line with nothing after the three backticks (`` ```\n ``) is not a code
  block, because `is_not("\n")` needs at least one character. A code block
  without a language is written `` ``` \n``.
- `parse_markdown` does not demand that the whole input is consumed. It returns
  the remainder no block alternative accepts, and the model does the same.
- `is_digit(d as u8)` casts the character to a byte first. The model keeps this
  truncation (`Block.IsDigit`): every character whose code point is congruent to
  an ASCII digit modulo 256 counts as a digit.
- `str::trim` removes Unicode `White_Space` characters (`Block.IsWhiteSpace`), not
  only ASCII blanks.

## Model

| member | source | states |
|---|---|---|
| Combinators.Result.Map | src/parser/markdown.rs:102-116 | `map(p, f)` fails exactly when `p` fails; on success it applies `f` to the value and keeps the rest |
| Combinators.Alt | src/parser/markdown.rs:102-116 | `alt` returns the first alternative that succeeds; a later alternative is reached only when every earlier one failed |
| Combinators.Take | src/parser/markdown.rs:96 | `take(n)` succeeds exactly when at least `n` characters remain, and returns exactly `n` of them followed by the rest |
| Combinators.Tag | src/parser/markdown.rs:83 | `tag(t)` succeeds exactly when the input starts with `t`, and consumes exactly `t` |
| Combinators.TakeWhile1 | src/parser/markdown.rs:125 | `take_while1(p)` succeeds exactly when the first character satisfies `p`; it returns a non-empty run of such characters, and what follows does not satisfy `p` |
| Combinators.TakeWhile1Exact | src/parser/markdown.rs:125 | any maximal non-empty run followed by a non-matching character is the run `take_while1` returns |
| Combinators.IsNot | src/parser/markdown.rs:60 | `is_not(set)` succeeds exactly when the first character is outside the set; it returns a non-empty run free of the set, stopped by a set character or the end |
| Combinators.IsNotExact | src/parser/markdown.rs:60 | any non-empty run free of the set, followed by a set character or the end, is exactly what `is_not` returns |
| Combinators.Delimited | src/parser/markdown.rs:60-61 | a success splits the input into opening tag, non-empty body free of the stop set, closing tag and rest |
| Combinators.DelimitedExact | src/parser/markdown.rs:60-61 | open + body + close is read back exactly when the close starts with a stop character |
| Inline.LabelAndUrl | src/parser/markdown.rs:57-71 | the `pair` of two delimited parts shared by links and images: a success is the opening tag, a non-empty label without `]`, `](`, a non-empty url without `)`, `)` and the rest |
| Inline.ParseLink | src/parser/markdown.rs:58-63 | a link parse returns a non-empty label without `]` and a non-empty url without `)`, and the input is `[label](url)` followed by the rest |
| Inline.ParseImage | src/parser/markdown.rs:66-71 | the same for `![label](url)` |
| Inline.LabelAndUrlExact | src/parser/markdown.rs:58-71 | every valid label and url written as `[label](url)` or `![label](url)` is read back, whatever follows |
| Inline.ParseInline | src/parser/markdown.rs:74-79 | inline code returns a non-empty body without a backtick and an optional language that is non-empty and free of spaces, tabs, CR and LF; the input is the backtick-delimited body, the language and the rest; the rest is empty or starts with whitespace |
| Inline.ParseLanguage | src/parser/markdown.rs:77 | the optional language is absent exactly when the input is empty or starts with whitespace; otherwise it is the whole run up to the next whitespace |
| Inline.ParseLanguageExact | src/parser/markdown.rs:77 | a valid language followed by the end or whitespace is read back |
| Inline.ParseInlineExact | src/parser/markdown.rs:74-79 | every valid code body and language is read back when the end or whitespace follows |
| Inline.ParseInlineLanguage | src/parser/markdown.rs:74-79 | after a closed code span, the language is whatever `opt(...)` reads, and it is absent exactly when the end or whitespace follows the closing backtick |
| Inline.ParseBold | src/parser/markdown.rs:82-84 | a bold parse returns a non-empty body with no `*`, and the input is `**body**` followed by the rest |
| Inline.ParseBoldExact | src/parser/markdown.rs:82-84 | every non-empty body with no `*` is read back from `**body**` |
| Inline.ParseItalic | src/parser/markdown.rs:87-89 | an italic parse returns a non-empty body with no `*` delimited by single stars |
| Inline.ParseItalicExact | src/parser/markdown.rs:87-89 | every non-empty body with no `*` is read back from `*body*` |
| Inline.MarkerTag | src/parser/markdown.rs:94 | the marker alternatives succeed exactly when the input starts with `*`, a backtick, `[`, `![` or a newline |
| Inline.PlainChunk | src/parser/markdown.rs:94-97 | one character is taken exactly when the input is non-empty and does not start with `*`, a backtick, `[`, `![` or a newline |
| Inline.PlainChunks | src/parser/markdown.rs:94-98 | the repeated chunks and what is left make up the input, and no position of the taken run starts a marker, while the rest is empty or starts one |
| Inline.ParsePlain | src/parser/markdown.rs:92-100 | plain text succeeds exactly when the input is non-empty and does not start with a marker; the run is the maximal marker-free scan, it is `PlainText`, and what stops it fits after it |
| Inline.PlainScanText | src/parser/markdown.rs:92-100 | a non-empty scan holds no marker character and no `![`, and what stops it fits after it |
| Inline.PlainTextScan | src/parser/markdown.rs:92-100 | conversely, plain text followed by something that fits is scanned in one piece |
| Inline.PlainScanUnique | src/parser/markdown.rs:92-100 | two scans of the same input stop at the same place |
| Inline.ParsePlainExact | src/parser/markdown.rs:92-100 | plain text followed by a marker that fits, or by the end, is read back exactly |
| Inline.ParseMarkdownInline | src/parser/markdown.rs:102-117 | a token parse consumes the token's source form, returns a valid token that fits before the rest, and always consumes something |
| Inline.ParseMarkdownInlineExact | src/parser/markdown.rs:102-117 | every valid token followed by something that fits is read back as that token, so the order of the alternatives never picks another one |
| Inline.SourceHead | src/parser/markdown.rs:102-117 | a token's source form is non-empty and never starts with a newline; only a plain run can start with a character other than `[`, `!`, a backtick or `*` |
| Inline.NoTokenAtNewline | src/parser/markdown.rs:102-117 | no token starts at a newline, so a line ends where its newline is |
| Inline.FitsIffAdjacent | src/parser/markdown.rs:102-117 | a token fits before the rendering of the next token exactly when the two may be adjacent |
| Inline.ParseInlines | src/parser/markdown.rs:120 | `many0` of the token parser consumes the rendering of the tokens it returns; the token parser fails on what is left; the first token is the token parser's result |
| Inline.InlinesWellFormed | src/parser/markdown.rs:120 | the tokens `many0` returns are well formed: each valid, neighbours adjacent |
| Inline.InlinesRoundTrip | src/parser/markdown.rs:120 | every well-formed token sequence, rendered and followed by a newline, is read back |
| Inline.ParseMarkdownText | src/parser/markdown.rs:119-121 | a line parse consumes the rendering of its tokens and a newline |
| Inline.TextWellFormed | src/parser/markdown.rs:119-121 | every token sequence `parse_markdown_text` returns is well formed |
| Inline.TextRoundTrip | src/parser/markdown.rs:119-121 | every well-formed token sequence, rendered and followed by a newline, is read back with the same rest |
| Inline.MissingNewlineFails | src/parser/markdown.rs:119-121 | input without a newline is not a line |
| Inline.DropNoTokenPrefix | src/parser/markdown.rs:92-121 | removing characters that start no token from the start of a well-formed line leaves a well-formed line |
| Inline.ParseAfterNoTokenPrefix | src/parser/markdown.rs:92-121 | if a line parses, it still parses with such characters removed from its start |
| Block.ParseHeaderTag | src/parser/markdown.rs:123-128 | the header tag succeeds exactly when a non-empty run of `#` is followed by a space; the value is the length of the run, at least 1, and the run and the space are consumed |
| Block.ParseHeaderTagExact | src/parser/markdown.rs:123-128 | `n >= 1` hashes and a space are read back as level `n` |
| Block.ParseHeader | src/parser/markdown.rs:130-132 | a header has level at least 1 and well-formed text, and the input is the hashes, a space, the rendered text and a newline, followed by the rest |
| Block.ParseHeaderExact | src/parser/markdown.rs:130-132 | every level `>= 1` with well-formed text is read back from its header line |
| Block.ParseUnorderedListTag | src/parser/markdown.rs:134-136 | succeeds exactly on input starting with `- ` and consumes those two characters |
| Block.IsDigit | src/parser/markdown.rs:148 | below U+0100 exactly the ASCII digits count as digits |
| Block.DigitTruncated | src/parser/markdown.rs:148 | the `d as u8` cast also lets through characters above U+00FF whose low byte is a digit's (U+0130, U+0139), and no others (U+013A) |
| Block.ParseOrderedListTag | src/parser/markdown.rs:146-151 | succeeds exactly on a non-empty digit run followed by `. `; the value is the digit run |
| Block.OrderedListTagExact | src/parser/markdown.rs:146-151 | every non-empty digit run followed by `. ` is read back |
| Block.ParseQuoteTag | src/parser/markdown.rs:162-164 | succeeds exactly on input starting with `> ` and consumes those two characters |
| Block.ItemTag | src/parser/markdown.rs:134-164 | the prefix parser of each kind returns a valid marker of that kind, and the input is the marker, its separator and the rest |
| Block.ItemTagExact | src/parser/markdown.rs:134-164 | each kind's prefix with a valid marker is read back, whatever follows |
| Block.ParseItem | src/parser/markdown.rs:138-168 | a list item or quote line is a valid prefix of its kind followed by a well-formed line of text; exactly that line is consumed |
| Block.ParseItemExact | src/parser/markdown.rs:138-168 | every prefixed well-formed line is read back |
| Block.ParseItems | src/parser/markdown.rs:142-144 | `many1` of items succeeds exactly when the first item does; the first item is the item parser's result; the input after the run does not start with another item, and the run consumes something |
| Block.MoreItemsSource | src/parser/markdown.rs:157-158 | what `many0` of items consumes is one prefixed line per item, each with a valid marker and well-formed text |
| Block.ItemsSourceOf | src/parser/markdown.rs:174-176 | the same for a whole list or quote |
| Block.ParseMoreItems | src/parser/markdown.rs:142-176 | `many0` of items stops where the item parser fails, never past the end of the input |
| Block.ItemsAreMoreItems | src/parser/markdown.rs:142-176 | `many1` of items succeeds exactly when `many0` reads at least one item, and then both read the same items and leave the same rest |
| Block.MoreItemsRoundTrip | src/parser/markdown.rs:142-176 | any sequence of prefixed well-formed lines is read back item for item, up to a line without the prefix |
| Block.ItemsRoundTrip | src/parser/markdown.rs:142-176 | a non-empty such sequence is read back by `parse_ordered_list`, `parse_unordered_list` or `parse_quote` |
| Block.ParseCodeBlock | src/parser/markdown.rs:182-187 | a code block is three backticks, a non-empty fence text without a newline, a newline, a non-empty body without a backtick and three backticks |
| Block.ParseCodeBlockExact | src/parser/markdown.rs:182-187 | every such fence text and body is read back |
| Block.IsWhiteSpace | src/parser/markdown.rs:197 | the whitespace `trim` drops: among ASCII characters exactly space, tab, newline, vertical tab, form feed and carriage return |
| Block.Trim | src/parser/markdown.rs:197 | trimming leaves nothing exactly when the text is all whitespace; otherwise the result starts and ends with non-whitespace |
| Block.TrimStart | src/parser/markdown.rs:197 | the result is a suffix of the text, only whitespace was dropped, and it does not start with whitespace |
| Block.TrimEnd | src/parser/markdown.rs:197 | the result is a prefix of the text, only whitespace was dropped, and it does not end with whitespace |
| Block.TrimExact | src/parser/markdown.rs:197 | trimming recovers any text starting and ending with non-whitespace from between whitespace |
| Block.CodeBlockOf | src/parser/markdown.rs:195-202 | the mapping keeps the body; the language is absent exactly when the fence text is all whitespace, and otherwise it is the trimmed fence text; a one-line fence gives a valid language |
| Block.CodeBlockOfTrimmed | src/parser/markdown.rs:195-202 | whitespace around the fence text is dropped: a fence text padded on either side gives the language between the padding |
| Block.CodeBlockOfFence | src/parser/markdown.rs:195-202 | the fence text written for a language maps back to that language |
| Block.ParseBlock | src/parser/markdown.rs:190-204 | each successful alternative consumes something |
| Block.ParseBlocks | src/parser/markdown.rs:189-205 | `many0` of blocks stops where no block alternative succeeds, never past the end of the input |
| Block.BlockFails | src/parser/markdown.rs:190-204 | where the choice fails, every alternative fails |
| Block.OtherPrefixesFail | src/parser/markdown.rs:190-204 | a line starting like an item of one kind is no heading and no item of the other kinds |
| Block.ItemsChosen | src/parser/markdown.rs:190-204 | where a list or quote of some kind is recognised, it is the block chosen, with the items and rest `many1` read |
| Block.CodeBlockChosen | src/parser/markdown.rs:190-204 | where a code block is recognised, it is the block chosen: no earlier alternative accepts a backtick |
| Block.UntaggedFails | src/parser/markdown.rs:190-204 | a line without a block prefix is no heading, list item or quote line |
| Block.TextNotCodeBlock | src/parser/markdown.rs:182-204 | a well-formed line of text ended by a newline is never a code block |
| Block.HeadingExact | src/parser/markdown.rs:190-204 | every well-formed heading is read back from its source by the block choice |
| Block.ItemsBlockExact | src/parser/markdown.rs:190-204 | a well-formed list or quote is read back from its canonical source when the next line lacks its prefix |
| Block.CodeBlockExact | src/parser/markdown.rs:190-204 | every well-formed code block is read back from its canonical source |
| Block.NotItemOfKind | src/parser/markdown.rs:190-204 | the canonical source of a well-formed block is no line of a list or quote kind other than its own |
| Block.BlockExact | src/parser/markdown.rs:190-204 | every well-formed block is read back from its canonical source, when a list or quote is not followed by a line of its own kind |
| Block.TextExact | src/parser/markdown.rs:190-204 | a text block is read back: a well-formed line without a block prefix is read by none of the earlier alternatives |
| Block.LineTaggedPrefix | src/parser/markdown.rs:123-176 | whether a line carries a block prefix is decided before its newline |
| Block.TaggedParses | src/parser/markdown.rs:190-204 | on a line that parses as text, a heading prefix makes the header parser succeed and each item prefix makes its item parser succeed, so the text alternative is never reached on such a line |
| Block.TextBlockSound | src/parser/markdown.rs:190-204 | a line that reaches the text alternative is a well-formed text block |
| Block.ItemsSound | src/parser/markdown.rs:142-176 | every list or quote `many1` reads is a well-formed block |
| Block.CodeBlockSound | src/parser/markdown.rs:182-202 | every code block read is a well-formed block |
| Block.BlockSound | src/parser/markdown.rs:190-204 | every block the choice returns is well formed |
| Block.OnlyItemsOfKind | src/parser/markdown.rs:190-204 | where the item parser of a kind fails, the block chosen is no list or quote of that kind |
| Block.ListBlockFrom | src/parser/markdown.rs:190-204 | a list or quote block chosen is exactly what `many1` of its item parser read, with the same rest |
| Block.NextBlockSeparate | src/parser/markdown.rs:190-204 | the block after a list or quote is never a list or quote of the same kind |
| Block.ParseMarkdown | src/parser/markdown.rs:189-205 | `parse_markdown` succeeds exactly when one block does; the first block is that block; it stops where no block is recognised, and it consumes something |
| Block.BlocksRoundTrip | src/parser/markdown.rs:189-205 | `many0` of the blocks reads every well-formed document back from its canonical rendering |
| Block.MarkdownIsBlocks | src/parser/markdown.rs:189-205 | `many1` of blocks succeeds exactly when `many0` reads at least one block, and then both agree |
| Block.DocRoundTrip | src/parser/markdown.rs:189-205 | `parse_markdown` reads every non-empty well-formed document back from its canonical rendering, with the same remainder |
| Block.BlocksSound | src/parser/markdown.rs:189-205 | every document `many0` of the blocks reads is well formed |
| Block.MarkdownSound | src/parser/markdown.rs:189-205 | every document `parse_markdown` returns is well formed |
| Block.Reparse | src/parser/markdown.rs:189-205 | rendering a parsed document canonically and parsing it again gives the same document and remainder |
| Examples.BoldExample | src/parser/markdown.rs:215 | `**bold text**` is bold `bold text` |
| Examples.BoldNeedsText | src/parser/markdown.rs:225-226 | `****` and `**` are not bold |
| Examples.ItalicIsNotBold | src/parser/markdown.rs:229-232 | `*this is italic*` is not bold |
| Examples.BoldIsNotItalic | src/parser/markdown.rs:256-259 | `**this is bold**` is not italic |
| Examples.InlineCodeNoLanguage | src/parser/markdown.rs:264-267 | `` `inline text` `` has no language |
| Examples.InlineCodeLanguage | src/parser/markdown.rs:272-275 | `` `inline text`rust `` before a newline has language `rust` and leaves the newline |
| Examples.LinkExample | src/parser/markdown.rs:295-298 | the link example of the tests |
| Examples.ImageExample | src/parser/markdown.rs:304-307 | the image example of the tests |
| Examples.PlainStopsBeforeImage | src/parser/markdown.rs:325-328 | plain text stops before `![` |
| Examples.PlainKeepsBang | src/parser/markdown.rs:329-332 | a `!` not followed by `[` belongs to plain text |
| Examples.PlainRejectsImage | src/parser/markdown.rs:353-356 | input starting with `![` is not plain text |
| Examples.EmptyLine | src/parser/markdown.rs:441 | a lone newline is an empty line |
| Examples.PlainLine | src/parser/markdown.rs:442-449 | a line of plain text is one plain token |
| Examples.HeadingKeepsSpace | src/parser/markdown.rs:511-517 | a second space after the hashes belongs to the heading's text |
| Examples.HeadingNeedsSpace | src/parser/markdown.rs:518 | hashes without a space are no heading |
| Examples.EmptyHeading | src/parser/markdown.rs:522 | `# ` and a newline is a level-1 heading without text |
| Examples.OrderedTagExample | src/parser/markdown.rs:622 | a long digit run is an ordered-list marker |
| Examples.OrderedListExample | src/parser/markdown.rs:703-714 | `parse_ordered_list` reads `1. this is an element` and `2. here is another` as two items, each one plain run, and consumes everything |
| Examples.CodeBlockExample | src/parser/markdown.rs:719-722 | the code-block example of the tests: fence text `bash`, body ending in a newline |
| Examples.QuoteKeepsDash | src/parser/markdown.rs:831-837 | `parse_quote` reads two quote lines that start with `- ` as two items whose plain text keeps the dash |
| Examples.SmallDocExample | src/parser/markdown.rs:730-751 | a heading, an empty line and a code block read as three blocks, in the shape of the document test |

## Left out

- Error kinds and error positions (`ErrorKind::Tag`, `ErrorKind::IsNot`, ...) are not modelled. Every failure is the single value `Fail`, so the tests' expectations about which error comes back are only checked as "fails".
- nom's `many0`/`many1` guard against a parser that succeeds without consuming input. It is not modelled, because every repeated parser is proved to consume input (`ParseMarkdownInline`, `ParseItem` through `ParseItems`, `ParseBlock`).
- Byte lengths: `parse_header_tag` returns `s.len()`, the run's length in UTF-8 bytes. The run holds only `#`, so this equals its length in characters, which the model uses.
- Rendering Markdown to HTML, file input and command-line handling lie outside `src/parser/markdown.rs` and are not part of this model.
- Nested lists (the TODO at `src/parser/markdown.rs:16-32`) are not implemented by the parser. The model shows the parser's actual behaviour: a list marker inside a quote stays plain text (`Examples.QuoteKeepsDash`).
- `Block.RenderBlock` / `Block.RenderDoc`: the source has no writer. These canonical forms exist to state the round trips. Ordered items are numbered `1` and a code block without a language uses the fence text " ". Input with other numbers or fence spacing is covered by `Block.MoreItemsRoundTrip` (any valid markers) `Block.CodeBlockOf` and `Block.CodeBlockOfTrimmed` (any whitespace around the language).
- `Block.ParseMoreItems` and `Block.ParseBlocks` (`many0`) state only that the next item or block fails on what is left, which is no longer than the input. Their contents are stated in `Block.MoreItemsSource`, `Block.MoreItemsRoundTrip`, `Block.BlocksRoundTrip` and `Block.BlocksSound`.
- The large document of the document test (`src/parser/markdown.rs:730-751`) is not restated character for character. `Examples.SmallDocExample` uses the same block shapes, and `Block.DocRoundTrip` covers every well-formed document, that one included.
