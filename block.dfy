/**
 The block layer of the Markdown parser: a document is a sequence of blocks
 (headings, ordered and unordered lists, quotes, fenced code blocks and plain
 text lines). Each block strips its line prefixes and hands the rest of each
 line to the inline layer.
 */
module Block {
  import opened Combinators
  import opened Inline

  datatype Markdown =
    | Heading(level: nat, text: MarkdownText)
    | OrderedList(items: seq<MarkdownText>)
    | UnorderedList(items: seq<MarkdownText>)
    | Quote(items: seq<MarkdownText>)
    | CodeBlock(code: string, language: Option<string>)
    | Text(text: MarkdownText)

  // ---------------------------------------------------------------------------
  // Line prefixes.

  predicate IsHash(c: char) {
    c == '#'
  }

  /**
   `is_digit(d as u8)`: the character is cast to a byte first, which keeps
   only the low eight bits of its code point, and that byte is tested against
   ASCII `'0'..'9'`. So besides the ASCII digits, every character whose code
   point is congruent to one of them modulo 256 (such as U+0130) counts.
   */
  function IsDigit(c: char): (r: bool)
    ensures (c as int) < 256 ==> (r <==> '0' <= c <= '9')
  {
    48 <= (c as int) % 256 <= 57
  }

  /** The byte cast lets a character beyond U+00FF through when its low byte is a digit's. */
  lemma DigitTruncated()
    ensures IsDigit('\U{0130}') && IsDigit('\U{0139}') && !IsDigit('\U{013A}')
  {
  }

  function Hashes(n: nat): (r: string)
    ensures |r| == n && forall i :: 0 <= i < n ==> r[i] == '#'
  {
    seq(n, _ => '#')
  }

  /** The input begins with a run of `#` followed by a space. */
  predicate HeaderTagAt(s: string) {
    var n := SpanLen(IsHash, s);
    0 < n < |s| && s[n] == ' '
  }

  /** `parse_header_tag`: a run of `#` and one space; the value is the length of the run. */
  function ParseHeaderTag(s: string): (r: Result<nat>)
    ensures r.Ok? <==> HeaderTagAt(s)
    ensures r.Ok? ==> r.value >= 1 && s == Hashes(r.value) + " " + r.rest
  {
    match TakeWhile1(IsHash, s)
    case Fail => Fail
    case Ok(hashes, afterHashes) =>
      match Tag(" ", afterHashes)
      case Fail => Fail
      case Ok(_, rest) =>
        assert hashes == Hashes(|hashes|);
        Ok(|hashes|, rest)
  }

  lemma ParseHeaderTagExact(n: nat, rest: string)
    requires n >= 1
    ensures ParseHeaderTag(Hashes(n) + " " + rest) == Ok(n, rest)
  {
    TakeWhile1Exact(IsHash, Hashes(n), " " + rest);
    assert Hashes(n) + " " + rest == Hashes(n) + (" " + rest);
  }

  /** The three kinds of prefixed lines: `1. ` items, `- ` items and `> ` quote lines. */
  datatype ItemKind = OrderedItem | UnorderedItem | QuoteLine

  /** What may stand before the separator: a digit run, `-` or `>`. */
  predicate ValidMarker(kind: ItemKind, m: string) {
    match kind
    case OrderedItem => m != [] && forall i :: 0 <= i < |m| ==> IsDigit(m[i])
    case UnorderedItem => m == "-"
    case QuoteLine => m == ">"
  }

  /** What separates the marker from the text: `. ` after a digit run, a space otherwise. */
  function Sep(kind: ItemKind): string {
    if kind == OrderedItem then ". " else " "
  }

  /** The input begins with a digit run followed by `. `. */
  predicate OrderedTagAt(s: string) {
    var n := SpanLen(IsDigit, s);
    0 < n && n + 1 < |s| && s[n] == '.' && s[n + 1] == ' '
  }

  /** `parse_ordered_list_tag`: digits, `.`, a space; the value is the digit run. */
  function ParseOrderedListTag(s: string): (r: Result<string>)
    ensures r.Ok? <==> OrderedTagAt(s)
    ensures r.Ok? ==> ValidMarker(OrderedItem, r.value) && s == r.value + ". " + r.rest
  {
    match TakeWhile1(IsDigit, s)
    case Fail => Fail
    case Ok(digits, afterDigits) =>
      match Tag(".", afterDigits)
      case Fail => Fail
      case Ok(_, afterDot) =>
        match Tag(" ", afterDot)
        case Fail => Fail
        case Ok(_, rest) =>
          assert s == digits + ". " + rest by {
            Assoc(digits, ".", afterDot);
            Assoc(digits + ".", " ", rest);
            Assoc(digits, ".", " ");
          }
          Ok(digits, rest)
  }

  /** `parse_unordered_list_tag`: `-` and a space. */
  function ParseUnorderedListTag(s: string): (r: Result<string>)
    ensures r.Ok? <==> "- " <= s
    ensures r.Ok? ==> r.value == "-" && s == "- " + r.rest
  {
    match Tag("-", s)
    case Fail => Fail
    case Ok(dash, afterDash) =>
      match Tag(" ", afterDash)
      case Fail => Fail
      case Ok(_, rest) =>
        assert s == "- " + rest by {
          Assoc("-", " ", rest);
        }
        Ok(dash, rest)
  }

  /** `parse_quote_tag`: `>` and a space. */
  function ParseQuoteTag(s: string): (r: Result<string>)
    ensures r.Ok? <==> "> " <= s
    ensures r.Ok? ==> r.value == ">" && s == "> " + r.rest
  {
    match Tag(">", s)
    case Fail => Fail
    case Ok(quote, afterQuote) =>
      match Tag(" ", afterQuote)
      case Fail => Fail
      case Ok(_, rest) =>
        assert s == "> " + rest by {
          Assoc(">", " ", rest);
        }
        Ok(quote, rest)
  }

  /** The line-prefix parser of each kind of item. */
  function ItemTag(kind: ItemKind, s: string): (r: Result<string>)
    ensures r.Ok? ==> ValidMarker(kind, r.value) && s == r.value + Sep(kind) + r.rest
  {
    match kind
    case OrderedItem => ParseOrderedListTag(s)
    case UnorderedItem => ParseUnorderedListTag(s)
    case QuoteLine => ParseQuoteTag(s)
  }

  lemma OrderedListTagExact(digits: string, rest: string)
    requires ValidMarker(OrderedItem, digits)
    ensures ParseOrderedListTag(digits + ". " + rest) == Ok(digits, rest)
  {
    TakeWhile1Exact(IsDigit, digits, ". " + rest);
    Assoc(digits, ". ", rest);
    assert Tag(".", ". " + rest) == Ok(".", " " + rest) by {
      assert ". " + rest == "." + (" " + rest);
    }
  }

  /** Every valid marker with its separator is recognised, whatever follows. */
  lemma ItemTagExact(kind: ItemKind, m: string, rest: string)
    requires ValidMarker(kind, m)
    ensures ItemTag(kind, m + Sep(kind) + rest) == Ok(m, rest)
  {
    match kind
    case OrderedItem =>
      OrderedListTagExact(m, rest);
    case UnorderedItem =>
      assert "- " + rest == "-" + (" " + rest);
    case QuoteLine =>
      assert "> " + rest == ">" + (" " + rest);
  }

  // ---------------------------------------------------------------------------
  // Headings, list items and quote lines.

  /** `parse_header`: the header prefix, then the rest of the line as inline text. */
  function ParseHeader(s: string): (r: Result<(nat, MarkdownText)>)
    ensures r.Ok? ==> r.value.0 >= 1 && WellFormed(r.value.1)
    ensures r.Ok? ==> s == Hashes(r.value.0) + " " + Render(r.value.1) + "\n" + r.rest
  {
    match ParseHeaderTag(s)
    case Fail => Fail
    case Ok(level, afterTag) =>
      match ParseMarkdownText(afterTag)
      case Fail => Fail
      case Ok(text, rest) =>
        TextWellFormed(afterTag);
        Assoc(Hashes(level) + " ", Render(text) + "\n", rest);
        Assoc(Hashes(level) + " ", Render(text), "\n");
        Ok((level, text), rest)
  }

  lemma ParseHeaderExact(level: nat, text: MarkdownText, rest: string)
    requires level >= 1 && WellFormed(text)
    ensures ParseHeader(Hashes(level) + " " + Render(text) + "\n" + rest) == Ok((level, text), rest)
  {
    var line := Render(text) + "\n" + rest;
    ParseHeaderTagExact(level, line);
    assert Hashes(level) + " " + Render(text) + "\n" + rest == Hashes(level) + " " + line by {
      Assoc(Hashes(level) + " ", Render(text) + "\n", rest);
      Assoc(Hashes(level) + " ", Render(text), "\n");
    }
    TextRoundTrip(text, rest);
  }

  /** The source of one prefixed line. */
  function ItemLine(kind: ItemKind, m: string, text: MarkdownText): string {
    m + Sep(kind) + Render(text) + "\n"
  }

  /**
   `parse_ordered_list_element`, `parse_unordered_list_element` and
   `parse_quote_line`: the line prefix, then the rest of the line as inline text.
   */
  function ParseItem(kind: ItemKind, s: string): (r: Result<MarkdownText>)
    ensures r.Ok? ==> ItemTag(kind, s).Ok? && WellFormed(r.value)
    ensures r.Ok? ==> s == ItemLine(kind, ItemTag(kind, s).value, r.value) + r.rest
  {
    match ItemTag(kind, s)
    case Fail => Fail
    case Ok(m, afterTag) =>
      match ParseMarkdownText(afterTag)
      case Fail => Fail
      case Ok(text, rest) =>
        TextWellFormed(afterTag);
        Assoc(m + Sep(kind), Render(text) + "\n", rest);
        Assoc(m + Sep(kind), Render(text), "\n");
        Ok(text, rest)
  }

  lemma ParseItemExact(kind: ItemKind, m: string, text: MarkdownText, rest: string)
    requires ValidMarker(kind, m) && WellFormed(text)
    ensures ParseItem(kind, ItemLine(kind, m, text) + rest) == Ok(text, rest)
  {
    var line := Render(text) + "\n" + rest;
    ItemTagExact(kind, m, line);
    assert ItemLine(kind, m, text) + rest == m + Sep(kind) + line by {
      Assoc(m + Sep(kind), Render(text) + "\n", rest);
      Assoc(m + Sep(kind), Render(text), "\n");
    }
    TextRoundTrip(text, rest);
  }

  /** `many0` of the item parser: items are taken until a line lacks the prefix. */
  function ParseMoreItems(kind: ItemKind, s: string): (r: (seq<MarkdownText>, string))
    decreases |s|
    ensures ParseItem(kind, r.1).Fail?
    ensures |r.1| <= |s|
  {
    match ParseItem(kind, s)
    case Fail => ([], s)
    case Ok(text, rest) =>
      var tail := ParseMoreItems(kind, rest);
      ([text] + tail.0, tail.1)
  }

  /** `parse_ordered_list`, `parse_unordered_list`, `parse_quote`: `many1` of the item parser. */
  function ParseItems(kind: ItemKind, s: string): (r: Result<seq<MarkdownText>>)
    ensures r.Ok? <==> ParseItem(kind, s).Ok?
    ensures r.Ok? ==> r.value != [] && r.value[0] == ParseItem(kind, s).value
    ensures r.Ok? ==> ParseItem(kind, r.rest).Fail? && |r.rest| < |s|
  {
    match ParseItem(kind, s)
    case Fail => Fail
    case Ok(text, rest) =>
      var tail := ParseMoreItems(kind, rest);
      Ok([text] + tail.0, tail.1)
  }

  /** The source of a run of prefixed lines, one marker per item. */
  function ItemsSource(kind: ItemKind, markers: seq<string>, items: seq<MarkdownText>): string
    requires |markers| == |items|
  {
    if items == [] then [] else ItemLine(kind, markers[0], items[0]) + ItemsSource(kind, markers[1..], items[1..])
  }

  predicate ValidMarkers(kind: ItemKind, markers: seq<string>) {
    forall i :: 0 <= i < |markers| ==> ValidMarker(kind, markers[i])
  }

  /**
   What `ParseMoreItems` consumes is one prefixed line per item, each with a
   valid marker, and every item is well formed; the markers returned are the
   ones read.
   */
  lemma {:induction false} MoreItemsSource(kind: ItemKind, s: string) returns (markers: seq<string>)
    decreases |s|
    ensures |markers| == |ParseMoreItems(kind, s).0| && ValidMarkers(kind, markers)
    ensures s == ItemsSource(kind, markers, ParseMoreItems(kind, s).0) + ParseMoreItems(kind, s).1
    ensures forall i :: 0 <= i < |ParseMoreItems(kind, s).0| ==> WellFormed(ParseMoreItems(kind, s).0[i])
  {
    match ParseItem(kind, s)
    case Fail =>
      markers := [];
    case Ok(text, rest) =>
      var m := ItemTag(kind, s).value;
      MoreItemsStep(kind, s);
      var tail := ParseMoreItems(kind, rest);
      assert ParseMoreItems(kind, s) == ([text] + tail.0, tail.1);
      var more := MoreItemsSource(kind, rest);
      markers := [m] + more;
      ItemsCons(kind, m, more, text, tail.0, tail.1, s);
  }

  /** A valid first line before a run of valid lines makes a longer run. */
  lemma ItemsCons(kind: ItemKind, m: string, markers: seq<string>, text: MarkdownText, items: seq<MarkdownText>, after: string, s: string)
    requires ValidMarker(kind, m) && WellFormed(text)
    requires |markers| == |items| && ValidMarkers(kind, markers)
    requires forall i :: 0 <= i < |items| ==> WellFormed(items[i])
    requires s == ItemLine(kind, m, text) + (ItemsSource(kind, markers, items) + after)
    ensures ValidMarkers(kind, [m] + markers)
    ensures forall i :: 0 <= i < |[text] + items| ==> WellFormed(([text] + items)[i])
    ensures s == ItemsSource(kind, [m] + markers, [text] + items) + after
  {
    ItemsSourceCons(kind, m, markers, text, items);
    Assoc(ItemLine(kind, m, text), ItemsSource(kind, markers, items), after);
    var all, allItems := [m] + markers, [text] + items;
    forall i | 0 <= i < |allItems|
      ensures ValidMarker(kind, all[i]) && WellFormed(allItems[i])
    {
      if i > 0 {
        assert all[i] == markers[i - 1] && allItems[i] == items[i - 1];
      }
    }
  }

  lemma ItemsSourceCons(kind: ItemKind, m: string, markers: seq<string>, text: MarkdownText, items: seq<MarkdownText>)
    requires |markers| == |items|
    ensures ItemsSource(kind, [m] + markers, [text] + items) == ItemLine(kind, m, text) + ItemsSource(kind, markers, items)
  {
    assert ([m] + markers)[1..] == markers && ([text] + items)[1..] == items;
  }

  /** `many1` is `many0` that has read at least one item. */
  lemma ItemsAreMoreItems(kind: ItemKind, s: string)
    ensures ParseItems(kind, s).Ok? <==> ParseMoreItems(kind, s).0 != []
    ensures ParseItems(kind, s).Ok? ==> ParseItems(kind, s) == Ok(ParseMoreItems(kind, s).0, ParseMoreItems(kind, s).1)
  {
  }

  /** The same for a whole list or quote: the markers as read, all items well formed. */
  lemma ItemsSourceOf(kind: ItemKind, s: string) returns (markers: seq<string>)
    requires ParseItems(kind, s).Ok?
    ensures |markers| == |ParseItems(kind, s).value| && ValidMarkers(kind, markers)
    ensures s == ItemsSource(kind, markers, ParseItems(kind, s).value) + ParseItems(kind, s).rest
    ensures forall i :: 0 <= i < |ParseItems(kind, s).value| ==> WellFormed(ParseItems(kind, s).value[i])
  {
    ItemsAreMoreItems(kind, s);
    markers := MoreItemsSource(kind, s);
  }

  /** Splitting a run of prefixed lines after its first line. */
  lemma ItemsTail(kind: ItemKind, markers: seq<string>, items: seq<MarkdownText>)
    requires |markers| == |items| && items != [] && ValidMarkers(kind, markers)
    requires forall i :: 0 <= i < |items| ==> WellFormed(items[i])
    ensures ValidMarker(kind, markers[0]) && WellFormed(items[0])
    ensures ValidMarkers(kind, markers[1..]) && forall i :: 0 <= i < |items[1..]| ==> WellFormed(items[1..][i])
    ensures ItemsSource(kind, markers, items) == ItemLine(kind, markers[0], items[0]) + ItemsSource(kind, markers[1..], items[1..])
  {
    assert forall i :: 0 <= i < |items| - 1 ==> items[1..][i] == items[i + 1] && markers[1..][i] == markers[i + 1];
  }

  /** One step of `many0`: the item read, then the items after it. */
  lemma MoreItemsStep(kind: ItemKind, s: string)
    requires ParseItem(kind, s).Ok?
    ensures ParseMoreItems(kind, s) == ([ParseItem(kind, s).value] + ParseMoreItems(kind, ParseItem(kind, s).rest).0, ParseMoreItems(kind, ParseItem(kind, s).rest).1)
  {
  }

  lemma MoreItemsStepExact(kind: ItemKind, m: string, text: MarkdownText, after: string)
    requires ValidMarker(kind, m) && WellFormed(text)
    ensures ParseMoreItems(kind, ItemLine(kind, m, text) + after) == ([text] + ParseMoreItems(kind, after).0, ParseMoreItems(kind, after).1)
  {
    ParseItemExact(kind, m, text, after);
    MoreItemsStep(kind, ItemLine(kind, m, text) + after);
  }

  /** Prefixed lines with any valid markers are read back item for item, up to a line without the prefix. */
  lemma {:induction false} MoreItemsRoundTrip(kind: ItemKind, markers: seq<string>, items: seq<MarkdownText>, rest: string)
    requires |markers| == |items| && ValidMarkers(kind, markers)
    requires forall i :: 0 <= i < |items| ==> WellFormed(items[i])
    requires ParseItem(kind, rest).Fail?
    ensures ParseMoreItems(kind, ItemsSource(kind, markers, items) + rest) == (items, rest)
  {
    if items == [] {
      assert ItemsSource(kind, markers, items) + rest == rest;
    } else {
      var m, text, ms, its := markers[0], items[0], markers[1..], items[1..];
      assert [text] + its == items;
      ItemsTail(kind, markers, items);
      var line := ItemLine(kind, m, text);
      var tailSource := ItemsSource(kind, ms, its) + rest;
      Assoc(line, ItemsSource(kind, ms, its), rest);
      assert ItemsSource(kind, markers, items) + rest == line + tailSource;
      MoreItemsRoundTrip(kind, ms, its, rest);
      assert ParseMoreItems(kind, tailSource) == (its, rest);
      MoreItemsStepExact(kind, m, text, tailSource);
      assert ParseMoreItems(kind, line + tailSource) == ([text] + its, rest);
    }
  }

  lemma ItemsRoundTrip(kind: ItemKind, markers: seq<string>, items: seq<MarkdownText>, rest: string)
    requires |markers| == |items| && items != [] && ValidMarkers(kind, markers)
    requires forall i :: 0 <= i < |items| ==> WellFormed(items[i])
    requires ParseItem(kind, rest).Fail?
    ensures ParseItems(kind, ItemsSource(kind, markers, items) + rest) == Ok(items, rest)
  {
    MoreItemsRoundTrip(kind, markers, items, rest);
    ItemsAreMoreItems(kind, ItemsSource(kind, markers, items) + rest);
  }

  // ---------------------------------------------------------------------------
  // Fenced code blocks.

  /** `parse_code_block`: a fence line and a body up to the closing fence; the value is (fence text, body). */
  function ParseCodeBlock(s: string): (r: Result<(string, string)>)
    ensures r.Ok? ==> s == "```" + r.value.0 + "\n" + r.value.1 + "```" + r.rest
    ensures r.Ok? ==> r.value.0 != [] && NoneIn(r.value.0, {'\n'})
    ensures r.Ok? ==> r.value.1 != [] && NoneIn(r.value.1, {'`'})
  {
    match Delimited("```", {'\n'}, "\n", s)
    case Fail => Fail
    case Ok(fence, afterFence) =>
      match Delimited("", {'`'}, "```", afterFence)
      case Fail => Fail
      case Ok(code, rest) =>
        FenceSplit(s, fence, afterFence, code, rest);
        Ok((fence, code), rest)
  }

  /** The fence line and the body the two delimited parsers read lie side by side in the input. */
  lemma FenceSplit(s: string, fence: string, afterFence: string, code: string, rest: string)
    requires s == "```" + fence + "\n" + afterFence
    requires afterFence == "" + code + "```" + rest
    ensures s == "```" + fence + "\n" + code + "```" + rest
  {
    var open := "```" + fence + "\n";
    assert afterFence == code + "```" + rest;
    Assoc(open, code + "```", rest);
    Assoc(open, code, "```");
  }

  lemma ParseCodeBlockExact(fence: string, code: string, rest: string)
    requires fence != [] && NoneIn(fence, {'\n'})
    requires code != [] && NoneIn(code, {'`'})
    ensures ParseCodeBlock("```" + fence + "\n" + code + "```" + rest) == Ok((fence, code), rest)
  {
    var open := "```" + fence + "\n";
    var body := code + "```" + rest;
    Assoc(open, code + "```", rest);
    Assoc(open, code, "```");
    assert [] + code + "```" + rest == body;
    DelimitedExact("```", {'\n'}, "\n", fence, body);
    assert Delimited("```", {'\n'}, "\n", open + code + "```" + rest) == Ok(fence, body);
    DelimitedExact("", {'`'}, "```", code, rest);
    assert Delimited("", {'`'}, "```", body) == Ok(code, rest);
  }

  /** Rust's `char::is_whitespace`: the Unicode `White_Space` characters. */
  function IsWhiteSpace(c: char): (r: bool)
    ensures (c as int) < 128 ==> (r <==> c in {' ', '\t', '\n', '\U{000B}', '\U{000C}', '\r'})
  {
    || ('\t' <= c <= '\r')
    || c == ' '
    || c == '\U{0085}'
    || c == '\U{00A0}'
    || c == '\U{1680}'
    || ('\U{2000}' <= c <= '\U{200A}')
    || c == '\U{2028}'
    || c == '\U{2029}'
    || c == '\U{202F}'
    || c == '\U{205F}'
    || c == '\U{3000}'
  }

  predicate AllWhite(s: string) {
    forall i :: 0 <= i < |s| ==> IsWhiteSpace(s[i])
  }

  /** `str::trim_start`: the suffix left after dropping leading whitespace. */
  function TrimStart(s: string): (r: string)
    ensures |r| <= |s| && r == s[|s| - |r|..] && AllWhite(s[..|s| - |r|])
    ensures r == [] || !IsWhiteSpace(r[0])
  {
    s[SpanLen(IsWhiteSpace, s)..]
  }

  /** Length of the longest suffix of `s` whose characters all satisfy `p`. */
  function TrailingLen(p: char -> bool, s: string): (n: nat)
    ensures n <= |s|
    ensures forall i :: |s| - n <= i < |s| ==> p(s[i])
    ensures n < |s| ==> !p(s[|s| - 1 - n])
  {
    if s == [] || !p(s[|s| - 1]) then 0 else 1 + TrailingLen(p, s[..|s| - 1])
  }

  /** `str::trim_end`: the prefix left after dropping trailing whitespace. */
  function TrimEnd(s: string): (r: string)
    ensures |r| <= |s| && r == s[..|r|] && AllWhite(s[|r|..])
    ensures r == [] || !IsWhiteSpace(r[|r| - 1])
  {
    s[..|s| - TrailingLen(IsWhiteSpace, s)]
  }

  /** `str::trim`: whitespace removed at both ends; nothing is left exactly when the text is all whitespace. */
  function Trim(s: string): (r: string)
    ensures r == [] || (!IsWhiteSpace(r[0]) && !IsWhiteSpace(r[|r| - 1]))
    ensures r == [] <==> AllWhite(s)
  {
    var start := TrimStart(s);
    var r := TrimEnd(start);
    if r == [] then
      assert s == s[..|s| - |start|] + start;
      r
    else
      assert !IsWhiteSpace(s[|s| - |start|]);
      r
  }

  /** The number of leading characters satisfying `p` is determined by the first one that does not. */
  lemma SpanLenIs(p: char -> bool, s: string, n: nat)
    requires n <= |s| && (forall i :: 0 <= i < n ==> p(s[i])) && (n == |s| || !p(s[n]))
    ensures SpanLen(p, s) == n
  {
  }

  lemma TrailingLenIs(p: char -> bool, s: string, n: nat)
    requires n <= |s| && (forall i :: |s| - n <= i < |s| ==> p(s[i])) && (n == |s| || !p(s[|s| - 1 - n]))
    ensures TrailingLen(p, s) == n
  {
  }

  /** Trimming recovers any text that starts and ends with non-whitespace from between whitespace. */
  lemma TrimExact(lead: string, t: string, trail: string)
    requires AllWhite(lead) && AllWhite(trail)
    requires t != [] && !IsWhiteSpace(t[0]) && !IsWhiteSpace(t[|t| - 1])
    ensures Trim(lead + t + trail) == t
  {
    var s := lead + t + trail;
    assert s[|lead|] == t[0];
    SpanLenIs(IsWhiteSpace, s, |lead|);
    var u := t + trail;
    assert TrimStart(s) == u;
    assert u[|t| - 1] == t[|t| - 1];
    TrailingLenIs(IsWhiteSpace, u, |trail|);
    assert u[..|t|] == t;
  }

  /** The characters of a trimmed text are characters of the text. */
  lemma TrimWithin(s: string, stop: set<char>)
    ensures NoneIn(s, stop) ==> NoneIn(Trim(s), stop)
  {
    if NoneIn(s, stop) {
      var start := TrimStart(s);
      var r := TrimEnd(start);
      assert Trim(s) == r;
      NoneInSlice(s, |s| - |start|, |s|, stop);
      assert s[|s| - |start|..|s|] == start;
      NoneInSlice(start, 0, |r|, stop);
      assert start[0..|r|] == r;
    }
  }

  lemma NoneInSlice(s: string, i: nat, j: nat, stop: set<char>)
    requires i <= j <= |s| && NoneIn(s, stop)
    ensures NoneIn(s[i..j], stop)
  {
    var u := s[i..j];
    assert forall k :: 0 <= k < |u| ==> u[k] == s[i + k];
  }

  /** A language written on a fence line survives trimming: non-empty, one line, no surrounding whitespace. */
  predicate ValidFenceLanguage(language: Option<string>) {
    language.Some? ==>
      var l := language.value;
      l != [] && NoneIn(l, {'\n'}) && !IsWhiteSpace(l[0]) && !IsWhiteSpace(l[|l| - 1])
  }

  /** The value the code-block mapping builds: the body, and the trimmed fence text unless it is empty. */
  function CodeBlockOf(fence: string, code: string): (r: Markdown)
    ensures r.CodeBlock? && r.code == code
    ensures r.language.None? <==> AllWhite(fence)
    ensures !AllWhite(fence) ==> r.language == Some(Trim(fence))
    ensures NoneIn(fence, {'\n'}) ==> ValidFenceLanguage(r.language)
  {
    var language := Trim(fence);
    TrimWithin(fence, {'\n'});
    CodeBlock(code, if language == [] then None else Some(language))
  }

  // ---------------------------------------------------------------------------
  // Blocks and documents.

  /** One alternative of `parse_markdown`: header, ordered list, unordered list, quote, code block, text, in that order. */
  function ParseBlock(s: string): (r: Result<Markdown>)
    ensures r.Ok? ==> |r.rest| < |s|
  {
    match ParseHeader(s)
    case Ok((level, text), rest) => Ok(Heading(level, text), rest)
    case Fail =>
    match ParseItems(OrderedItem, s)
    case Ok(items, rest) => Ok(OrderedList(items), rest)
    case Fail =>
    match ParseItems(UnorderedItem, s)
    case Ok(items, rest) => Ok(UnorderedList(items), rest)
    case Fail =>
    match ParseItems(QuoteLine, s)
    case Ok(items, rest) => Ok(Quote(items), rest)
    case Fail =>
    match ParseCodeBlock(s)
    case Ok((fence, code), rest) => Ok(CodeBlockOf(fence, code), rest)
    case Fail =>
    match ParseMarkdownText(s)
    case Ok(text, rest) => Ok(Text(text), rest)
    case Fail => Fail
  }

  /** `many0` of the block alternatives. */
  function ParseBlocks(s: string): (r: (seq<Markdown>, string))
    decreases |s|
    ensures ParseBlock(r.1).Fail?
    ensures |r.1| <= |s|
  {
    match ParseBlock(s)
    case Fail => ([], s)
    case Ok(block, rest) =>
      var tail := ParseBlocks(rest);
      ([block] + tail.0, tail.1)
  }

  /**
   `parse_markdown`: `many1` of the block alternatives. It needs one block,
   stops at the first input no alternative accepts and returns that remainder.
   */
  function ParseMarkdown(s: string): (r: Result<seq<Markdown>>)
    ensures r.Ok? <==> ParseBlock(s).Ok?
    ensures r.Ok? ==> r.value != [] && r.value[0] == ParseBlock(s).value
    ensures r.Ok? ==> ParseBlock(r.rest).Fail? && |r.rest| < |s|
  {
    match ParseBlock(s)
    case Fail => Fail
    case Ok(block, rest) =>
      var tail := ParseBlocks(rest);
      Ok([block] + tail.0, tail.1)
  }

  // ---------------------------------------------------------------------------
  // Writing a document back, in a canonical form the parser reads back.

  /** The marker written before every item of a kind: `1`, `-` or `>`. */
  function CanonicalMarker(kind: ItemKind): string {
    match kind
    case OrderedItem => "1"
    case UnorderedItem => "-"
    case QuoteLine => ">"
  }

  function CanonicalMarkers(kind: ItemKind, n: nat): (r: seq<string>)
    ensures |r| == n && ValidMarkers(kind, r)
  {
    seq(n, _ => CanonicalMarker(kind))
  }

  /** The fence text of a code block: its language, or a single space when there is none. */
  function FenceText(language: Option<string>): string {
    match language
    case None => " "
    case Some(l) => l
  }

  function RenderBlock(b: Markdown): string {
    match b
    case Heading(level, text) => Hashes(level) + " " + Render(text) + "\n"
    case OrderedList(items) => ItemsSource(OrderedItem, CanonicalMarkers(OrderedItem, |items|), items)
    case UnorderedList(items) => ItemsSource(UnorderedItem, CanonicalMarkers(UnorderedItem, |items|), items)
    case Quote(items) => ItemsSource(QuoteLine, CanonicalMarkers(QuoteLine, |items|), items)
    case CodeBlock(code, language) => "```" + FenceText(language) + "\n" + code + "```"
    case Text(text) => Render(text) + "\n"
  }

  function RenderDoc(doc: seq<Markdown>): string {
    if doc == [] then [] else RenderBlock(doc[0]) + RenderDoc(doc[1..])
  }

  /** The line begins with one of the block prefixes that `parse_markdown` tries before plain text. */
  predicate LineTagged(s: string) {
    HeaderTagAt(s) || OrderedTagAt(s) || "- " <= s || "> " <= s
  }

  /**
   A block the parser can produce: headings have a level, lists and quotes
   at least one item, every line is well-formed inline text, a code body
   holds no backtick, and a text line does not begin with a block prefix
   (it would have been read as that block).
   */
  predicate WellFormedBlock(b: Markdown) {
    match b
    case Heading(level, text) => level >= 1 && WellFormed(text)
    case OrderedList(items) => items != [] && forall i :: 0 <= i < |items| ==> WellFormed(items[i])
    case UnorderedList(items) => items != [] && forall i :: 0 <= i < |items| ==> WellFormed(items[i])
    case Quote(items) => items != [] && forall i :: 0 <= i < |items| ==> WellFormed(items[i])
    case CodeBlock(code, language) => code != [] && NoneIn(code, {'`'}) && ValidFenceLanguage(language)
    case Text(text) => WellFormed(text) && !LineTagged(Render(text) + "\n")
  }

  /** Which kind of prefixed line a list or quote block is made of. */
  function ItemKindOf(b: Markdown): Option<ItemKind> {
    match b
    case OrderedList(_) => Some(OrderedItem)
    case UnorderedList(_) => Some(UnorderedItem)
    case Quote(_) => Some(QuoteLine)
    case _ => None
  }

  /** Two lists of the same kind, or two quotes, cannot follow each other: `many1` would have merged them. */
  predicate Separate(a: Markdown, b: Markdown) {
    !(ItemKindOf(a).Some? && ItemKindOf(a) == ItemKindOf(b))
  }

  predicate WellFormedDoc(doc: seq<Markdown>) {
    && (forall i :: 0 <= i < |doc| ==> WellFormedBlock(doc[i]))
    && (forall i :: 0 <= i < |doc| - 1 ==> Separate(doc[i], doc[i + 1]))
  }

  // ---------------------------------------------------------------------------
  // Each block is read back from its canonical source.

  /** The first characters each block alternative insists on. */
  lemma HeaderHead(s: string)
    ensures ParseHeader(s).Ok? ==> s != [] && s[0] == '#'
  {
    if ParseHeader(s).Ok? {
      var level := ParseHeader(s).value.0;
      assert s[0] == Hashes(level)[0];
    }
  }

  /** The character a line of each kind must start with. */
  predicate ItemStarts(kind: ItemKind, c: char) {
    match kind
    case OrderedItem => IsDigit(c)
    case UnorderedItem => c == '-'
    case QuoteLine => c == '>'
  }

  lemma ItemHead(kind: ItemKind, s: string)
    ensures ParseItem(kind, s).Ok? ==> s != [] && ItemStarts(kind, s[0])
  {
    if ParseItem(kind, s).Ok? {
      var m := ItemTag(kind, s).value;
      assert s[0] == m[0];
    }
  }

  lemma CodeBlockHead(s: string)
    ensures ParseCodeBlock(s).Ok? ==> s[0] == '`' && s[1] == '`' && s[2] == '`'
  {
  }

  /** The block a run of prefixed lines of each kind becomes. */
  function ItemsBlock(kind: ItemKind, items: seq<MarkdownText>): (b: Markdown)
    ensures ItemKindOf(b) == Some(kind) && b.items == items
  {
    match kind
    case OrderedItem => OrderedList(items)
    case UnorderedItem => UnorderedList(items)
    case QuoteLine => Quote(items)
  }

  /** A line starting like an item of one kind is no heading and no item of another kind. */
  lemma OtherPrefixesFail(kind: ItemKind, s: string)
    requires s != [] && ItemStarts(kind, s[0])
    ensures ParseHeader(s).Fail? && forall k :: k != kind ==> ParseItem(k, s).Fail?
  {
    HeaderHead(s);
    match kind
    case OrderedItem =>
      assert s[0] != '-' && s[0] != '>' && s[0] != '#';
      ItemHead(UnorderedItem, s);
      ItemHead(QuoteLine, s);
    case UnorderedItem =>
      assert !IsDigit(s[0]);
      ItemHead(OrderedItem, s);
      ItemHead(QuoteLine, s);
    case QuoteLine =>
      assert !IsDigit(s[0]);
      ItemHead(OrderedItem, s);
      ItemHead(UnorderedItem, s);
  }

  /** Where a list or quote is recognised, it is the block chosen. */
  lemma ItemsChosen(kind: ItemKind, s: string)
    requires ParseItems(kind, s).Ok?
    ensures ParseBlock(s) == Ok(ItemsBlock(kind, ParseItems(kind, s).value), ParseItems(kind, s).rest)
  {
    ItemHead(kind, s);
    OtherPrefixesFail(kind, s);
    ChoiceItems(kind, s);
  }

  /** The choice made by `ParseBlock` once the alternatives before the chosen one have failed. */
  lemma ChoiceItems(kind: ItemKind, s: string)
    requires ParseHeader(s).Fail? && forall k :: k != kind ==> ParseItem(k, s).Fail?
    requires ParseItems(kind, s).Ok?
    ensures ParseBlock(s) == Ok(ItemsBlock(kind, ParseItems(kind, s).value), ParseItems(kind, s).rest)
  {
  }

  /** Where a code block is recognised, it is the block chosen: no earlier alternative accepts a backtick. */
  lemma CodeBlockChosen(s: string)
    requires ParseCodeBlock(s).Ok?
    ensures ParseBlock(s) == Ok(CodeBlockOf(ParseCodeBlock(s).value.0, ParseCodeBlock(s).value.1), ParseCodeBlock(s).rest)
  {
    CodeBlockHead(s);
    NoPrefixAtBacktick(s);
    ChoiceCodeBlock(s);
  }

  lemma NoPrefixAtBacktick(s: string)
    requires s != [] && s[0] == '`'
    ensures ParseHeader(s).Fail? && forall k :: ParseItem(k, s).Fail?
  {
    HeaderHead(s);
    assert !IsDigit(s[0]);
    ItemHead(OrderedItem, s);
    ItemHead(UnorderedItem, s);
    ItemHead(QuoteLine, s);
  }

  lemma ChoiceCodeBlock(s: string)
    requires ParseHeader(s).Fail? && forall k :: ParseItem(k, s).Fail?
    requires ParseCodeBlock(s).Ok?
    ensures ParseBlock(s) == Ok(CodeBlockOf(ParseCodeBlock(s).value.0, ParseCodeBlock(s).value.1), ParseCodeBlock(s).rest)
  {
  }

  /** Every alternative of `parse_markdown` fails where the whole choice fails. */
  lemma BlockFails(s: string)
    requires ParseBlock(s).Fail?
    ensures ParseHeader(s).Fail? && ParseCodeBlock(s).Fail? && ParseMarkdownText(s).Fail?
    ensures forall kind :: ParseItem(kind, s).Fail?
  {
    assert ParseHeader(s).Fail?;
    assert ParseItems(OrderedItem, s).Fail? && ParseItems(UnorderedItem, s).Fail? && ParseItems(QuoteLine, s).Fail?;
    assert ParseCodeBlock(s).Fail?;
    forall kind: ItemKind
      ensures ParseItem(kind, s).Fail?
    {
      assert ParseItems(kind, s).Fail?;
    }
  }

  lemma HeadingExact(level: nat, text: MarkdownText, next: string)
    requires WellFormedBlock(Heading(level, text))
    ensures ParseBlock(RenderBlock(Heading(level, text)) + next) == Ok(Heading(level, text), next)
  {
    ParseHeaderExact(level, text, next);
  }

  /** A list or quote is read back when the line after it lacks its prefix. */
  lemma ItemsBlockExact(kind: ItemKind, items: seq<MarkdownText>, next: string)
    requires WellFormedBlock(ItemsBlock(kind, items))
    requires ParseItem(kind, next).Fail?
    ensures ParseBlock(RenderBlock(ItemsBlock(kind, items)) + next) == Ok(ItemsBlock(kind, items), next)
  {
    var markers := CanonicalMarkers(kind, |items|);
    var s := ItemsSource(kind, markers, items) + next;
    assert RenderBlock(ItemsBlock(kind, items)) == ItemsSource(kind, markers, items);
    ItemsRoundTrip(kind, markers, items, next);
    ItemsChosen(kind, s);
  }

  /** The fence text written for a language is trimmed back to that language. */
  /** Whitespace around the fence text is dropped: the language is what lies between it. */
  lemma CodeBlockOfTrimmed(lead: string, language: string, trail: string, code: string)
    requires AllWhite(lead) && AllWhite(trail)
    requires language != [] && !IsWhiteSpace(language[0]) && !IsWhiteSpace(language[|language| - 1])
    ensures CodeBlockOf(lead + language + trail, code).language == Some(language)
  {
    TrimExact(lead, language, trail);
  }

  lemma CodeBlockOfFence(code: string, language: Option<string>)
    requires ValidFenceLanguage(language)
    ensures CodeBlockOf(FenceText(language), code) == CodeBlock(code, language)
  {
    var fence := FenceText(language);
    if language.Some? {
      assert [] + fence + [] == fence;
      TrimExact([], fence, []);
    } else {
      assert Trim(fence) == [];
    }
  }

  lemma CodeBlockExact(code: string, language: Option<string>, next: string)
    requires WellFormedBlock(CodeBlock(code, language))
    ensures ParseBlock(RenderBlock(CodeBlock(code, language)) + next) == Ok(CodeBlock(code, language), next)
  {
    var fence := FenceText(language);
    var s := "```" + fence + "\n" + code + "```" + next;
    ParseCodeBlockExact(fence, code, next);
    CodeBlockChosen(s);
    CodeBlockOfFence(code, language);
  }

  // Text lines.

  /** Whether a line is tagged is decided before its newline, whatever follows it. */
  lemma HeaderTagPrefix(line: string, more: string)
    requires line != [] && line[|line| - 1] == '\n'
    ensures HeaderTagAt(line + more) <==> HeaderTagAt(line)
  {
    var n := SpanLen(IsHash, line);
    assert !IsHash(line[|line| - 1]);
    var s := line + more;
    assert s[n] == line[n];
    SpanLenIs(IsHash, s, n);
  }

  lemma OrderedTagPrefix(line: string, more: string)
    requires line != [] && line[|line| - 1] == '\n'
    ensures OrderedTagAt(line + more) <==> OrderedTagAt(line)
  {
    var n := SpanLen(IsDigit, line);
    assert !IsDigit(line[|line| - 1]);
    var s := line + more;
    assert s[n] == line[n];
    SpanLenIs(IsDigit, s, n);
    if n + 1 < |line| {
      assert s[n + 1] == line[n + 1];
    }
  }

  lemma LineTaggedPrefix(line: string, more: string)
    requires line != [] && line[|line| - 1] == '\n'
    ensures LineTagged(line + more) <==> LineTagged(line)
  {
    HeaderTagPrefix(line, more);
    OrderedTagPrefix(line, more);
    var s := line + more;
    assert s[0] == line[0];
    if |line| >= 2 {
      assert s[1] == line[1];
    }
  }

  /** A line without a block prefix is no heading, list item or quote line. */
  lemma UntaggedFails(s: string)
    requires !LineTagged(s)
    ensures ParseHeader(s).Fail? && forall k :: ParseItem(k, s).Fail?
  {
    assert ParseHeaderTag(s).Fail?;
    assert ParseOrderedListTag(s).Fail? && ParseUnorderedListTag(s).Fail? && ParseQuoteTag(s).Fail?;
    forall k
      ensures ItemTag(k, s).Fail?
    {
    }
  }

  /** A well-formed line never starts with two backticks, so it is never a code fence. */
  lemma RenderNoFence(text: MarkdownText)
    requires WellFormed(text) && Render(text) != [] && Render(text)[0] == '`'
    ensures |Render(text)| >= 2 && Render(text)[1] != '`'
  {
    var tok := text[0];
    assert Render(text) == Source(tok) + Render(text[1..]);
    SourceHead(tok);
    assert ValidToken(tok);
    assert Source(tok)[0] == '`';
    assert tok.InlineCode?;
    assert Source(tok)[1] == tok.code[0];
  }

  lemma TextNotCodeBlock(text: MarkdownText, next: string)
    requires WellFormed(text)
    ensures ParseCodeBlock(Render(text) + "\n" + next).Fail?
  {
    var s := Render(text) + "\n" + next;
    CodeBlockHead(s);
    if Render(text) != [] {
      assert s[0] == Render(text)[0];
      if Render(text)[0] == '`' {
        RenderNoFence(text);
        assert s[1] == Render(text)[1];
      }
    }
  }

  lemma ChoiceText(s: string)
    requires ParseHeader(s).Fail? && (forall k :: ParseItem(k, s).Fail?) && ParseCodeBlock(s).Fail?
    requires ParseMarkdownText(s).Ok?
    ensures ParseBlock(s) == Ok(Text(ParseMarkdownText(s).value), ParseMarkdownText(s).rest)
  {
  }

  lemma TextExact(text: MarkdownText, next: string)
    requires WellFormedBlock(Text(text))
    ensures ParseBlock(RenderBlock(Text(text)) + next) == Ok(Text(text), next)
  {
    var line := Render(text) + "\n";
    var s := line + next;
    assert s == Render(text) + "\n" + next;
    LineTaggedPrefix(line, next);
    UntaggedFails(s);
    TextNotCodeBlock(text, next);
    TextRoundTrip(text, next);
    ChoiceText(s);
  }

  // ---------------------------------------------------------------------------
  // Documents are read back from their canonical rendering.

  /** A run of prefixed lines starts with the first character of its first marker. */
  lemma ItemsSourceHead(kind: ItemKind, markers: seq<string>, items: seq<MarkdownText>)
    requires |markers| == |items| && items != [] && markers[0] != []
    ensures ItemsSource(kind, markers, items) != []
    ensures ItemsSource(kind, markers, items)[0] == markers[0][0]
  {
    var line := ItemLine(kind, markers[0], items[0]);
    assert ItemsSource(kind, markers, items) == line + ItemsSource(kind, markers[1..], items[1..]);
    assert line[0] == markers[0][0];
  }

  /** The character the canonical source of a block other than a text line starts with. */
  function LeadChar(b: Markdown): char
    requires !b.Text?
  {
    match b
    case Heading(_, _) => '#'
    case OrderedList(_) => '1'
    case UnorderedList(_) => '-'
    case Quote(_) => '>'
    case CodeBlock(_, _) => '`'
  }

  lemma RenderLead(b: Markdown)
    requires WellFormedBlock(b) && !b.Text?
    ensures RenderBlock(b) != [] && RenderBlock(b)[0] == LeadChar(b)
  {
    match b
    case Heading(level, text) =>
      assert RenderBlock(b)[0] == Hashes(level)[0];
    case OrderedList(items) =>
      ItemsSourceHead(OrderedItem, CanonicalMarkers(OrderedItem, |items|), items);
    case UnorderedList(items) =>
      ItemsSourceHead(UnorderedItem, CanonicalMarkers(UnorderedItem, |items|), items);
    case Quote(items) =>
      ItemsSourceHead(QuoteLine, CanonicalMarkers(QuoteLine, |items|), items);
    case CodeBlock(code, language) =>
  }

  /** The canonical source of a block holds no line of a kind other than its own at its start. */
  lemma NotItemOfKind(kind: ItemKind, b: Markdown, more: string)
    requires WellFormedBlock(b) && ItemKindOf(b) != Some(kind)
    ensures ParseItem(kind, RenderBlock(b) + more).Fail?
  {
    if b.Text? {
      assert RenderBlock(b) == Render(b.text) + "\n";
      TextNotItem(kind, b.text, more);
    } else {
      LeadNotItem(kind, b, more);
    }
  }

  lemma TextNotItem(kind: ItemKind, text: MarkdownText, more: string)
    requires WellFormedBlock(Text(text))
    ensures ParseItem(kind, Render(text) + "\n" + more).Fail?
  {
    var line := Render(text) + "\n";
    LineTaggedPrefix(line, more);
    UntaggedFails(line + more);
  }

  lemma LeadNotItem(kind: ItemKind, b: Markdown, more: string)
    requires WellFormedBlock(b) && !b.Text? && ItemKindOf(b) != Some(kind)
    ensures ParseItem(kind, RenderBlock(b) + more).Fail?
  {
    RenderLead(b);
    LeadNotStart(kind, b);
    StartNotItem(kind, RenderBlock(b), more);
  }

  lemma LeadNotStart(kind: ItemKind, b: Markdown)
    requires !b.Text? && ItemKindOf(b) != Some(kind)
    ensures !ItemStarts(kind, LeadChar(b))
  {
  }

  lemma StartNotItem(kind: ItemKind, r: string, more: string)
    requires r != [] && !ItemStarts(kind, r[0])
    ensures ParseItem(kind, r + more).Fail?
  {
    ItemHead(kind, r + more);
  }

  /** What may follow a block without changing how it is read: a list or quote must not be followed by a line of its own kind. */
  predicate Follows(b: Markdown, next: string) {
    ItemKindOf(b).Some? ==> ParseItem(ItemKindOf(b).value, next).Fail?
  }

  /** Every well-formed block is read back from its canonical source. */
  lemma BlockExact(b: Markdown, next: string)
    requires WellFormedBlock(b) && Follows(b, next)
    ensures ParseBlock(RenderBlock(b) + next) == Ok(b, next)
  {
    match b
    case Heading(level, text) => HeadingExact(level, text, next);
    case OrderedList(items) => ItemsBlockExact(OrderedItem, items, next);
    case UnorderedList(items) => ItemsBlockExact(UnorderedItem, items, next);
    case Quote(items) => ItemsBlockExact(QuoteLine, items, next);
    case CodeBlock(code, language) => CodeBlockExact(code, language, next);
    case Text(text) => TextExact(text, next);
  }

  lemma WellFormedDocTail(doc: seq<Markdown>)
    requires doc != [] && WellFormedDoc(doc)
    ensures WellFormedBlock(doc[0]) && WellFormedDoc(doc[1..])
  {
    var tl := doc[1..];
    assert forall i :: 0 <= i < |tl| ==> tl[i] == doc[i + 1];
  }

  /** The rendering of the rest of a document may follow its first block. */
  lemma DocFollows(doc: seq<Markdown>, rest: string)
    requires doc != [] && WellFormedDoc(doc) && ParseBlock(rest).Fail?
    ensures Follows(doc[0], RenderDoc(doc[1..]) + rest)
  {
    var tl := doc[1..];
    if ItemKindOf(doc[0]).Some? {
      if tl == [] {
        BlockFails(rest);
        assert RenderDoc(tl) + rest == rest;
      } else {
        assert Separate(doc[0], doc[1]) && WellFormedBlock(doc[1]);
        assert tl[0] == doc[1];
        assert RenderDoc(tl) == RenderBlock(tl[0]) + RenderDoc(tl[1..]);
        Assoc(RenderBlock(tl[0]), RenderDoc(tl[1..]), rest);
        NotItemOfKind(ItemKindOf(doc[0]).value, tl[0], RenderDoc(tl[1..]) + rest);
      }
    }
  }

  /** One step of `many0`: the block the choice reads, then the blocks after it. */
  lemma BlocksStep(s: string)
    requires ParseBlock(s).Ok?
    ensures ParseBlocks(s) == ([ParseBlock(s).value] + ParseBlocks(ParseBlock(s).rest).0, ParseBlocks(ParseBlock(s).rest).1)
  {
  }

  /** `many0` of the block alternatives reads a well-formed document back from its canonical rendering. */
  lemma {:induction false} BlocksRoundTrip(doc: seq<Markdown>, rest: string)
    requires WellFormedDoc(doc) && ParseBlock(rest).Fail?
    ensures ParseBlocks(RenderDoc(doc) + rest) == (doc, rest)
    decreases |doc|
  {
    if doc == [] {
      assert RenderDoc(doc) + rest == rest;
    } else {
      var b, tl := doc[0], doc[1..];
      assert doc == [b] + tl;
      var next := RenderDoc(tl) + rest;
      WellFormedDocTail(doc);
      BlocksRoundTrip(tl, rest);
      DocFollows(doc, rest);
      Assoc(RenderBlock(b), RenderDoc(tl), rest);
      assert RenderDoc(doc) + rest == RenderBlock(b) + next;
      BlockExact(b, next);
      BlocksStep(RenderBlock(b) + next);
    }
  }

  lemma MarkdownIsBlocks(s: string)
    ensures ParseMarkdown(s).Ok? <==> ParseBlocks(s).0 != []
    ensures ParseMarkdown(s).Ok? ==> ParseMarkdown(s) == Ok(ParseBlocks(s).0, ParseBlocks(s).1)
  {
  }

  /** `parse_markdown` reads every non-empty well-formed document back from its canonical rendering. */
  lemma DocRoundTrip(doc: seq<Markdown>, rest: string)
    requires doc != [] && WellFormedDoc(doc) && ParseBlock(rest).Fail?
    ensures ParseMarkdown(RenderDoc(doc) + rest) == Ok(doc, rest)
  {
    BlocksRoundTrip(doc, rest);
    MarkdownIsBlocks(RenderDoc(doc) + rest);
  }

  // ---------------------------------------------------------------------------
  // Every document the parser returns is well formed.

  /** A heading prefix is made of characters that start no token, and the header tag parser consumes exactly it. */
  lemma HeaderTagNoToken(s: string)
    requires HeaderTagAt(s)
    ensures NoTokenPrefix(s, ParseHeaderTag(s).value + 1)
    ensures ParseHeaderTag(s).rest == s[ParseHeaderTag(s).value + 1..]
  {
    var v := ParseHeaderTag(s).value;
    var h := Hashes(v) + " ";
    assert s == h + ParseHeaderTag(s).rest;
    forall i | 0 <= i < v + 1
      ensures StartsNoToken(s[i])
    {
      assert s[i] == h[i];
    }
  }

  lemma OrderedTagNoToken(s: string)
    requires OrderedTagAt(s)
    ensures NoTokenPrefix(s, |ParseOrderedListTag(s).value| + 2)
    ensures ParseOrderedListTag(s).rest == s[|ParseOrderedListTag(s).value| + 2..]
  {
    var m := ParseOrderedListTag(s).value;
    var h := m + ". ";
    assert s == h + ParseOrderedListTag(s).rest;
    forall i | 0 <= i < |m| + 2
      ensures StartsNoToken(s[i])
    {
      assert s[i] == h[i];
      if i < |m| {
        DigitStartsNoToken(m[i]);
      }
    }
  }

  /** A character counted as a digit is none of the inline markers. */
  lemma DigitStartsNoToken(c: char)
    requires IsDigit(c)
    ensures StartsNoToken(c)
  {
  }

  lemma HeaderFromRest(s: string)
    requires ParseHeaderTag(s).Ok? && ParseMarkdownText(ParseHeaderTag(s).rest).Ok?
    ensures ParseHeader(s).Ok?
  {
  }

  lemma ItemFromRest(kind: ItemKind, s: string)
    requires ItemTag(kind, s).Ok? && ParseMarkdownText(ItemTag(kind, s).rest).Ok?
    ensures ParseItem(kind, s).Ok?
  {
  }

  /** On a line carrying a heading prefix, the heading alternative succeeds whenever plain text would. */
  lemma HeaderTagParses(s: string)
    requires ParseMarkdownText(s).Ok?
    ensures HeaderTagAt(s) ==> ParseHeader(s).Ok?
  {
    if HeaderTagAt(s) {
      HeaderTagNoToken(s);
      ParseAfterNoTokenPrefix(s, ParseHeaderTag(s).value + 1);
      HeaderFromRest(s);
    }
  }

  lemma OrderedTagParses(s: string)
    requires ParseMarkdownText(s).Ok?
    ensures OrderedTagAt(s) ==> ParseItem(OrderedItem, s).Ok?
  {
    if OrderedTagAt(s) {
      OrderedTagNoToken(s);
      ParseAfterNoTokenPrefix(s, |ParseOrderedListTag(s).value| + 2);
      ItemFromRest(OrderedItem, s);
    }
  }

  /** The two-character prefix of an unordered item or a quote line. */
  function PairTag(kind: ItemKind): string {
    if kind == UnorderedItem then "- " else "> "
  }

  lemma PairTagNoToken(kind: ItemKind, s: string)
    requires kind != OrderedItem && PairTag(kind) <= s
    ensures ItemTag(kind, s).Ok? && ItemTag(kind, s).rest == s[2..]
    ensures NoTokenPrefix(s, 2)
  {
    assert s[0] == PairTag(kind)[0] && s[1] == ' ';
  }

  lemma PairTagParses(kind: ItemKind, s: string)
    requires kind != OrderedItem && ParseMarkdownText(s).Ok?
    ensures PairTag(kind) <= s ==> ParseItem(kind, s).Ok?
  {
    if PairTag(kind) <= s {
      PairTagNoToken(kind, s);
      ParseAfterNoTokenPrefix(s, 2);
      ItemFromRest(kind, s);
    }
  }

  /** A text line that carries a block prefix would have been read as that block. */
  lemma TaggedParses(s: string)
    requires ParseMarkdownText(s).Ok?
    ensures HeaderTagAt(s) ==> ParseHeader(s).Ok?
    ensures OrderedTagAt(s) ==> ParseItem(OrderedItem, s).Ok?
    ensures "- " <= s ==> ParseItem(UnorderedItem, s).Ok?
    ensures "> " <= s ==> ParseItem(QuoteLine, s).Ok?
  {
    HeaderTagParses(s);
    OrderedTagParses(s);
    DashTagParses(s);
    QuoteTagParses(s);
  }

  lemma DashTagParses(s: string)
    requires ParseMarkdownText(s).Ok?
    ensures "- " <= s ==> ParseItem(UnorderedItem, s).Ok?
  {
    PairTagParses(UnorderedItem, s);
  }

  lemma QuoteTagParses(s: string)
    requires ParseMarkdownText(s).Ok?
    ensures "> " <= s ==> ParseItem(QuoteLine, s).Ok?
  {
    PairTagParses(QuoteLine, s);
  }

  /** A line that falls through to plain text is a well-formed text block. */
  lemma TextBlockSound(s: string)
    requires ParseHeader(s).Fail? && (forall k :: ParseItem(k, s).Fail?) && ParseMarkdownText(s).Ok?
    ensures WellFormedBlock(Text(ParseMarkdownText(s).value))
  {
    var r := ParseMarkdownText(s);
    TextWellFormed(s);
    var line := Render(r.value) + "\n";
    assert s == line + r.rest;
    LineTaggedPrefix(line, r.rest);
    TaggedParses(s);
  }

  lemma ItemsSound(kind: ItemKind, s: string)
    requires ParseItems(kind, s).Ok?
    ensures WellFormedBlock(ItemsBlock(kind, ParseItems(kind, s).value))
  {
    var markers := ItemsSourceOf(kind, s);
  }

  lemma CodeBlockSound(s: string)
    requires ParseCodeBlock(s).Ok?
    ensures WellFormedBlock(CodeBlockOf(ParseCodeBlock(s).value.0, ParseCodeBlock(s).value.1))
  {
  }

  /** Each block `parse_markdown` returns is well formed. */
  lemma BlockSound(s: string)
    requires ParseBlock(s).Ok?
    ensures WellFormedBlock(ParseBlock(s).value)
  {
    if ParseHeader(s).Ok? {
    } else if ParseItems(OrderedItem, s).Ok? {
      ItemsChosen(OrderedItem, s);
      ItemsSound(OrderedItem, s);
    } else if ParseItems(UnorderedItem, s).Ok? {
      ItemsChosen(UnorderedItem, s);
      ItemsSound(UnorderedItem, s);
    } else if ParseItems(QuoteLine, s).Ok? {
      ItemsChosen(QuoteLine, s);
      ItemsSound(QuoteLine, s);
    } else if ParseCodeBlock(s).Ok? {
      CodeBlockChosen(s);
      CodeBlockSound(s);
    } else {
      BlockTextCase(s);
    }
  }

  lemma BlockTextCase(s: string)
    requires ParseBlock(s).Ok? && ParseHeader(s).Fail? && ParseCodeBlock(s).Fail?
    requires forall k :: ParseItems(k, s).Fail?
    ensures WellFormedBlock(ParseBlock(s).value)
  {
    forall k: ItemKind
      ensures ParseItem(k, s).Fail?
    {
      assert ParseItems(k, s).Fail?;
    }
    TextReached(s);
    TextBlockSound(s);
    ChoiceText(s);
  }

  /** A block chosen after every other alternative failed is a line of text. */
  lemma TextReached(s: string)
    requires ParseBlock(s).Ok? && ParseHeader(s).Fail? && ParseCodeBlock(s).Fail?
    requires ParseItems(OrderedItem, s).Fail? && ParseItems(UnorderedItem, s).Fail? && ParseItems(QuoteLine, s).Fail?
    ensures ParseMarkdownText(s).Ok?
  {
  }

  /** A list or quote block is exactly what `many1` of its item parser read. */
  lemma ListBlockFrom(kind: ItemKind, s: string)
    requires ParseBlock(s).Ok? && ItemKindOf(ParseBlock(s).value) == Some(kind)
    ensures ParseItems(kind, s).Ok? && ParseBlock(s).rest == ParseItems(kind, s).rest
  {
    if ParseItems(kind, s).Ok? {
      ItemsChosen(kind, s);
    } else {
      OnlyItemsOfKind(kind, s);
    }
  }

  /** A list or quote of a kind is only ever chosen through that kind's item parser. */
  lemma OnlyItemsOfKind(kind: ItemKind, s: string)
    requires ParseItems(kind, s).Fail?
    ensures ParseBlock(s).Fail? || ItemKindOf(ParseBlock(s).value) != Some(kind)
  {
    var r := ParseBlock(s);
    if ParseHeader(s).Ok? {
      assert r.value.Heading?;
    } else if ParseItems(OrderedItem, s).Ok? {
      assert kind != OrderedItem && r.value.OrderedList?;
    } else if ParseItems(UnorderedItem, s).Ok? {
      assert kind != UnorderedItem && r.value.UnorderedList?;
    } else if ParseItems(QuoteLine, s).Ok? {
      assert kind != QuoteLine && r.value.Quote?;
    } else if ParseCodeBlock(s).Ok? {
      assert r.value.CodeBlock?;
    } else {
      assert r.Fail? || r.value.Text?;
    }
  }

  /** The block after a list or quote is never a list or quote of the same kind. */
  lemma NextBlockSeparate(s: string)
    requires ParseBlock(s).Ok? && ParseBlock(ParseBlock(s).rest).Ok?
    ensures Separate(ParseBlock(s).value, ParseBlock(ParseBlock(s).rest).value)
  {
    var rest := ParseBlock(s).rest;
    var kind := ItemKindOf(ParseBlock(s).value);
    if kind.Some? {
      ListBlockFrom(kind.value, s);
      if ItemKindOf(ParseBlock(rest).value) == kind {
        ListBlockFrom(kind.value, rest);
      }
    }
  }

  lemma BlocksHead(s: string)
    ensures ParseBlocks(s).0 != [] ==> ParseBlock(s).Ok? && ParseBlocks(s).0[0] == ParseBlock(s).value
  {
  }

  lemma DocCons(b: Markdown, doc: seq<Markdown>)
    requires WellFormedBlock(b) && WellFormedDoc(doc)
    requires doc != [] ==> Separate(b, doc[0])
    ensures WellFormedDoc([b] + doc)
  {
    var all := [b] + doc;
    assert forall i :: 1 <= i < |all| ==> all[i] == doc[i - 1];
  }

  /** Every document `many0` of the block alternatives reads is well formed. */
  lemma {:induction false} BlocksSound(s: string)
    decreases |s|
    ensures WellFormedDoc(ParseBlocks(s).0)
  {
    if ParseBlock(s).Ok? {
      var r := ParseBlock(s);
      var tail := ParseBlocks(r.rest);
      BlocksSound(r.rest);
      BlockSound(s);
      BlocksHead(r.rest);
      if tail.0 != [] {
        NextBlockSeparate(s);
      }
      DocCons(r.value, tail.0);
    }
  }

  /** Every document `parse_markdown` returns is well formed. */
  lemma MarkdownSound(s: string)
    requires ParseMarkdown(s).Ok?
    ensures WellFormedDoc(ParseMarkdown(s).value)
  {
    MarkdownIsBlocks(s);
    BlocksSound(s);
  }

  /**
   Writing out what `parse_markdown` returned in canonical form, followed by
   the same remainder, and parsing again gives back the same document and
   remainder.
   */
  lemma Reparse(s: string)
    requires ParseMarkdown(s).Ok?
    ensures ParseMarkdown(RenderDoc(ParseMarkdown(s).value) + ParseMarkdown(s).rest) == ParseMarkdown(s)
  {
    MarkdownSound(s);
    DocRoundTrip(ParseMarkdown(s).value, ParseMarkdown(s).rest);
  }
}
