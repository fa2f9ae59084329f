/** The emitter as the parser runs it: a recursive walk that appends fragments to a text
    stream, with one loop per list of children. Each method is proved to append exactly what
    `MarkdownSpec` says for the node it is given. */
module MarkdownEmitter {
  import opened Options
  import opened Strings
  import opened HtmlTree
  import opened MarkdownSpec

  /** An append-only text buffer (`io.StringIO`). */
  class Stream {
    var text: string

    constructor ()
      ensures text == []
    {
      text := [];
    }

    method Write(s: string)
      modifies this
      ensures text == old(text) + s
    {
      text := text + s;
    }
  }

  /** `_convert_to_markdown`: a fresh stream, the walk over the content region, its value. */
  method ConvertToMarkdown(root: Node, rootParent: string) returns (markdown: string)
    ensures markdown == Emit(root, rootParent)
  {
    var result := new Stream();
    ProcessElement(root, rootParent, result);
    markdown := result.text;
  }

  /** `_process_element`: a text node is written stripped (and only when something is left);
      an element is dispatched on its tag name. */
  method ProcessElement(n: Node, parent: string, output: Stream)
    modifies output
    ensures output.text == old(output.text) + Emit(n, parent)
    decreases Size(n), 2
  {
    match n
    case Text(t) =>
      var text := Strip(t);
      if text != [] {
        output.Write(text);
      } else {
        assert output.text == old(output.text) + text;
      }
    case Element(tag, attrs, classes, cs) =>
      assert Emit(n, parent) == EmitElement(n, parent);
      ghost var start := old(output.text);
      match RuleOf(tag)
      case Heading(level) =>
        output.Write(Repeat('#', level) + " ");
        WriteWithoutButtons(n, output);
        output.Write("\n\n");
        Append3(start, Repeat('#', level) + " ", EmitWithoutButtons(cs, |cs|, tag), "\n\n");
      case Paragraph =>
        WriteChildren(n, output);
        output.Write("\n\n");
        Append2(start, EmitAll(cs, |cs|, tag), "\n\n");
      case Link =>
        var href := Get(attrs, "href", "#");
        var text := CollectLinkText(n);
        text := Strip(text);
        if text == [] {
          text := href;
        }
        output.Write("[" + text + "](" + href + ")");
      case Strong =>
        output.Write("**");
        WriteChildren(n, output);
        output.Write("**");
        Append3(start, "**", EmitAll(cs, |cs|, tag), "**");
      case Emphasis =>
        output.Write("*");
        WriteChildren(n, output);
        output.Write("*");
        Append3(start, "*", EmitAll(cs, |cs|, tag), "*");
      case InlineCode =>
        if parent == "pre" {
          WriteChildren(n, output);
        } else {
          output.Write("`");
          WriteChildren(n, output);
          output.Write("`");
          Append3(start, "`", EmitAll(cs, |cs|, tag), "`");
        }
      case Preformatted =>
        var language := ScanLanguage(classes);
        output.Write("```" + language + "\n");
        WriteChildren(n, output);
        output.Write("\n```\n\n");
        Append3(start, "```" + language + "\n", EmitAll(cs, |cs|, tag), "\n```\n\n");
      case BulletList =>
        output.Write("\n");
        WriteBullets(n, output);
        output.Write("\n");
        Append3(start, "\n", BulletItems(cs, |cs|), "\n");
      case NumberedList =>
        output.Write("\n");
        WriteNumbered(n, output);
        output.Write("\n");
        Append3(start, "\n", NumberedItems(DirectItems(cs), |DirectItems(cs)|), "\n");
      case ListItem =>
        WriteChildren(n, output);
      case Quote =>
        var lines := CollectQuoteLines(n);
        WriteQuoteLines(lines, output);
        output.Write("\n");
        Append2(start, QuoteLines(lines, |lines|), "\n");
      case HorizontalRule =>
        output.Write("\n---\n\n");
      case LineBreak =>
        output.Write("\n");
      case Image =>
        output.Write("![" + Get(attrs, "alt", "") + "](" + Get(attrs, "src", "") + ")");
      case Table =>
        WriteTable(n, parent, output);
      case Skipped =>
        assert output.text == start + [];
      case Transparent =>
        WriteChildren(n, output);
  }

  lemma Append2(s: string, a: string, b: string)
    ensures (s + a) + b == s + (a + b)
  {
  }

  lemma Append3(s: string, a: string, b: string, c: string)
    ensures ((s + a) + b) + c == s + ((a + b) + c)
  {
    Append2(s, a, b);
    Append2(s, a + b, c);
  }

  lemma ChildSmaller(n: Node, i: nat)
    requires n.Element? && i < |n.children|
    ensures Size(n.children[i]) < Size(n)
  {
  }

  lemma EmitAllStep(base: string, before: string, after: string, cs: seq<Node>, i: nat, parent: string)
    requires i < |cs|
    requires before == base + EmitAll(cs, i, parent)
    requires after == before + Emit(cs[i], parent)
    ensures after == base + EmitAll(cs, i + 1, parent)
  {
    assert EmitAll(cs, i + 1, parent) == EmitAll(cs, i, parent) + Emit(cs[i], parent);
    Append2(base, EmitAll(cs, i, parent), Emit(cs[i], parent));
  }

  /** `for child in element.children: self._process_element(child, output, level)`. */
  method WriteChildren(n: Node, output: Stream)
    requires n.Element?
    modifies output
    ensures output.text == old(output.text) + EmitAll(n.children, |n.children|, n.tag)
    decreases Size(n), 1
  {
    var cs := n.children;
    for i := 0 to |cs|
      invariant output.text == old(output.text) + EmitAll(cs, i, n.tag)
    {
      ghost var before := output.text;
      ChildSmaller(n, i);
      ProcessElement(cs[i], n.tag, output);
      EmitAllStep(old(output.text), before, output.text, cs, i, n.tag);
    }
  }

  lemma WithoutButtonsStep(base: string, before: string, after: string, cs: seq<Node>, i: nat, parent: string)
    requires i < |cs|
    requires before == base + EmitWithoutButtons(cs, i, parent)
    requires after == before + (if IsElementNamed(cs[i], "button") then [] else Emit(cs[i], parent))
    ensures after == base + EmitWithoutButtons(cs, i + 1, parent)
  {
    var piece := if IsElementNamed(cs[i], "button") then [] else Emit(cs[i], parent);
    assert EmitWithoutButtons(cs, i + 1, parent) == EmitWithoutButtons(cs, i, parent) + piece;
    Append2(base, EmitWithoutButtons(cs, i, parent), piece);
  }

  /** A heading's children, skipping every direct `button` child. */
  method WriteWithoutButtons(n: Node, output: Stream)
    requires n.Element?
    modifies output
    ensures output.text == old(output.text) + EmitWithoutButtons(n.children, |n.children|, n.tag)
    decreases Size(n), 1
  {
    var cs := n.children;
    for i := 0 to |cs|
      invariant output.text == old(output.text) + EmitWithoutButtons(cs, i, n.tag)
    {
      ghost var before := output.text;
      if !IsElementNamed(cs[i], "button") {
        ChildSmaller(n, i);
        ProcessElement(cs[i], n.tag, output);
      } else {
        assert output.text == before + [];
      }
      WithoutButtonsStep(old(output.text), before, output.text, cs, i, n.tag);
    }
  }

  lemma LinkTextStep(pieces: seq<string>, piece: string, cs: seq<Node>, i: nat)
    requires i < |cs|
    requires Concat(pieces) == LinkText(cs, i)
    requires piece == LinkPiece(cs[i])
    ensures Concat(pieces + [piece]) == LinkText(cs, i + 1)
  {
    ConcatAppend(pieces, [piece]);
    assert Concat([piece]) == piece;
  }

  /** The raw text of a link: its pieces collected in a list and joined. */
  method CollectLinkText(n: Node) returns (text: string)
    requires n.Element?
    ensures text == LinkText(n.children, |n.children|)
    decreases Size(n), 1
  {
    var cs := n.children;
    var pieces: seq<string> := [];
    for i := 0 to |cs|
      invariant Concat(pieces) == LinkText(cs, i)
    {
      var piece: string;
      match cs[i] {
        case Text(t) =>
          piece := t;
        case Element(tag, attrs, _, _) =>
          if tag == "img" {
            piece := Get(attrs, "alt", "");
          } else {
            var buf := new Stream();
            ChildSmaller(n, i);
            ProcessElement(cs[i], "a", buf);
            piece := buf.text;
          }
      }
      LinkTextStep(pieces, piece, cs, i);
      pieces := pieces + [piece];
    }
    text := Concat(pieces);
  }

  /** The language scan of a `pre`: the last `language-` class wins. */
  method ScanLanguage(classes: seq<string>) returns (language: string)
    ensures language == Language(classes)
  {
    language := "";
    for i := 0 to |classes|
      invariant language == Language(classes[..i])
    {
      if StartsWith(classes[i], LanguagePrefix) {
        language := ReplaceAll(classes[i], LanguagePrefix, "");
      }
      assert classes[..i + 1][..i] == classes[..i];
    }
    assert classes[..|classes|] == classes;
  }

  lemma BulletStep(base: string, before: string, after: string, cs: seq<Node>, i: nat)
    requires i < |cs|
    requires before == base + BulletItems(cs, i)
    requires after == before + (if IsElementNamed(cs[i], "li") then BulletItem(cs[i]) else [])
    ensures after == base + BulletItems(cs, i + 1)
  {
    var piece := if IsElementNamed(cs[i], "li") then BulletItem(cs[i]) else [];
    assert BulletItems(cs, i + 1) == BulletItems(cs, i) + piece;
    Append2(base, BulletItems(cs, i), piece);
  }

  /** The items of a `ul`: each direct `li` child becomes `"* "`, its children, a newline. */
  method WriteBullets(n: Node, output: Stream)
    requires n.Element?
    modifies output
    ensures output.text == old(output.text) + BulletItems(n.children, |n.children|)
    decreases Size(n), 1
  {
    var cs := n.children;
    for i := 0 to |cs|
      invariant output.text == old(output.text) + BulletItems(cs, i)
    {
      ghost var before := output.text;
      if IsElementNamed(cs[i], "li") {
        ChildSmaller(n, i);
        output.Write("* ");
        WriteChildren(cs[i], output);
        output.Write("\n");
        Append3(before, "* ", EmitAll(cs[i].children, |cs[i].children|, "li"), "\n");
      } else {
        assert output.text == before + [];
      }
      BulletStep(old(output.text), before, output.text, cs, i);
    }
  }

  lemma NumberedStep(base: string, before: string, after: string, items: seq<Node>, i: nat)
    requires i < |items|
    requires forall j :: 0 <= j < |items| ==> items[j].Element?
    requires before == base + NumberedItems(items, i)
    requires after == before + NumberedItem(i, items[i])
    ensures after == base + NumberedItems(items, i + 1)
  {
    assert NumberedItems(items, i + 1) == NumberedItems(items, i) + NumberedItem(i, items[i]);
    Append2(base, NumberedItems(items, i), NumberedItem(i, items[i]));
  }

  lemma ItemSmaller(n: Node, items: seq<Node>, i: nat)
    requires n.Element? && items == DirectItems(n.children) && i < |items|
    ensures Size(items[i]) < Size(n)
  {
  }

  /** The items of an `ol`: `enumerate(element.find_all('li', recursive=False))`, each written
      as its number from 1, `". "`, its children, a newline. */
  method WriteNumbered(n: Node, output: Stream)
    requires n.Element?
    modifies output
    ensures output.text == old(output.text) +
              NumberedItems(DirectItems(n.children), |DirectItems(n.children)|)
    decreases Size(n), 1
  {
    var items := DirectItems(n.children);
    for i := 0 to |items|
      invariant output.text == old(output.text) + NumberedItems(items, i)
    {
      ghost var before := output.text;
      ItemSmaller(n, items, i);
      output.Write(NatToString(i + 1) + ". ");
      WriteChildren(items[i], output);
      output.Write("\n");
      Append3(before, NatToString(i + 1) + ". ", EmitAll(items[i].children, |items[i].children|, "li"), "\n");
      NumberedStep(old(output.text), before, output.text, items, i);
    }
  }

  lemma QuoteLinesStep(lines: seq<string>, more: string, cs: seq<Node>, i: nat)
    requires i < |cs|
    requires lines == BlockquoteLines(cs, i)
    requires more == Emit(cs[i], "blockquote")
    ensures lines + SplitLines(more) == BlockquoteLines(cs, i + 1)
  {
  }

  /** The lines of a `blockquote`: each child emitted into its own buffer and split into lines. */
  method CollectQuoteLines(n: Node) returns (lines: seq<string>)
    requires n.Element?
    ensures lines == BlockquoteLines(n.children, |n.children|)
    decreases Size(n), 1
  {
    var cs := n.children;
    lines := [];
    for i := 0 to |cs|
      invariant lines == BlockquoteLines(cs, i)
    {
      var buf := new Stream();
      ChildSmaller(n, i);
      ProcessElement(cs[i], "blockquote", buf);
      QuoteLinesStep(lines, buf.text, cs, i);
      lines := lines + SplitLines(buf.text);
    }
  }

  lemma QuoteStep(base: string, before: string, after: string, lines: seq<string>, j: nat)
    requires j < |lines|
    requires before == base + QuoteLines(lines, j)
    requires after == before + QuoteLine(lines[j])
    ensures after == base + QuoteLines(lines, j + 1)
  {
    Append2(base, QuoteLines(lines, j), QuoteLine(lines[j]));
  }

  /** Each line written as `"> "`, the line, a newline; a blank line as a bare `">"`. */
  method WriteQuoteLines(lines: seq<string>, output: Stream)
    modifies output
    ensures output.text == old(output.text) + QuoteLines(lines, |lines|)
  {
    for j := 0 to |lines|
      invariant output.text == old(output.text) + QuoteLines(lines, j)
    {
      ghost var before := output.text;
      if Strip(lines[j]) != [] {
        output.Write("> " + lines[j] + "\n");
      } else {
        output.Write(">\n");
      }
      QuoteStep(old(output.text), before, output.text, lines, j);
    }
  }

  /** `while len(row) < len(headers): row.append('')`. */
  method PadRow(row: seq<string>, width: nat) returns (padded: seq<string>)
    ensures padded == Pad(row, width)
  {
    padded := row;
    while |padded| < width
      invariant |row| <= |padded| <= if |row| < width then width else |row|
      invariant padded[..|row|] == row
      invariant forall j :: |row| <= j < |padded| ==> padded[j] == ""
    {
      padded := padded + [""];
    }
  }

  lemma RowStep(base: string, before: string, after: string, rows: seq<seq<string>>, i: nat, width: nat)
    requires i < |rows|
    requires before == base + RowLines(rows, i, width)
    requires after == before + RowLine(Pad(rows[i], width))
    ensures after == base + RowLines(rows, i + 1, width)
  {
    Append2(base, RowLines(rows, i, width), RowLine(Pad(rows[i], width)));
  }

  /** The body rows, each padded to `width` cells and written as a row line. */
  method WriteRows(rows: seq<seq<string>>, width: nat, output: Stream)
    modifies output
    ensures output.text == old(output.text) + RowLines(rows, |rows|, width)
  {
    for i := 0 to |rows|
      invariant output.text == old(output.text) + RowLines(rows, i, width)
    {
      ghost var before := output.text;
      var row := PadRow(rows[i], width);
      output.Write("| " + JoinWith(row, " | ") + " |\n");
      RowStep(old(output.text), before, output.text, rows, i, width);
    }
  }

  lemma TableGlue(base: string, headers: seq<string>, body: string)
    ensures base + RowLine(headers) + RowLine(Repeat("---", |headers|)) + body + "\n" ==
            base + (RowLine(headers) + RowLine(Repeat("---", |headers|)) + body + "\n")
  {
    Append2(base, RowLine(headers), RowLine(Repeat("---", |headers|)));
    Append3(base, RowLine(headers) + RowLine(Repeat("---", |headers|)), body, "\n");
  }

  /** A table: the header line, the separator line and every body row, only when there is at
      least one header cell. */
  method WriteTable(n: Node, ghost parent: string, output: Stream)
    requires n.Element? && RuleOf(n.tag) == Table
    modifies output
    ensures output.text == old(output.text) + EmitElement(n, parent)
    decreases Size(n), 1
  {
    var headers := CollectHeaders(n);
    var rows := CollectRows(n);
    if |headers| > 0 {
      output.Write("| " + JoinWith(headers, " | ") + " |\n");
      output.Write("| " + JoinWith(Repeat("---", |headers|), " | ") + " |\n");
      WriteRows(rows, |headers|, output);
      output.Write("\n");
      TableGlue(old(output.text), headers, RowLines(rows, |rows|, |headers|));
    } else {
      assert output.text == old(output.text) + [];
    }
  }

  /** The stripped cells of the found `th`/`td` elements, each emitted into its own buffer. */
  method CollectCells(fs: seq<Found>, ghost bound: nat) returns (cells: seq<string>)
    requires forall i :: 0 <= i < |fs| ==> Size(fs[i].node) <= bound
    ensures cells == seq(|fs|, i requires 0 <= i < |fs| => Cell(fs[i]))
    decreases bound, 3
  {
    ghost var want := seq(|fs|, i requires 0 <= i < |fs| => Cell(fs[i]));
    cells := [];
    for i := 0 to |fs|
      invariant cells == want[..i]
    {
      var buf := new Stream();
      ProcessElement(fs[i].node, fs[i].parent, buf);
      var cell := Strip(buf.text);
      assert buf.text == Emit(fs[i].node, fs[i].parent);
      assert cell == want[i];
      TakeSnoc(want, i);
      cells := cells + [cell];
    }
    assert want[..|fs|] == want;
  }

  /** The header cells: each `th` below the first `thead`. */
  method CollectHeaders(n: Node) returns (headers: seq<string>)
    requires n.Element?
    ensures headers == TableHeaders(n)
    decreases Size(n), 0
  {
    headers := [];
    var thead := Find(n.children, "thead");
    if thead.Some? {
      var ths := FindAll(thead.value.children, thead.value.tag, {"th"});
      headers := CollectCells(ths, Size(n) - 1);
    }
  }

  /** The body rows: for each `tr` below the first `tbody`, its `td`/`th` cells. */
  method CollectRows(n: Node) returns (rows: seq<seq<string>>)
    requires n.Element?
    ensures rows == TableRows(n)
    decreases Size(n), 0
  {
    rows := [];
    var tbody := Find(n.children, "tbody");
    if tbody.Some? {
      var trs := FindAll(tbody.value.children, tbody.value.tag, {"tr"});
      for i := 0 to |trs|
        invariant |rows| == i
        invariant forall k :: 0 <= k < i ==> rows[k] == RowCells(trs[k].node)
      {
        var tr := trs[i].node;
        var tds := FindAll(tr.children, tr.tag, {"td", "th"});
        var row := CollectCells(tds, Size(n) - 1);
        rows := rows + [row];
      }
    }
  }
}
