/** What `DeepWikiParser._process_element` writes for a node, as a function of the node and
    the name of its parent element. Every walk over a list of children is written over its
    first `k` entries, the order in which the emitter's loops extend their output. */
module MarkdownSpec {
  import opened Options
  import opened Strings
  import opened HtmlTree

  /** The heading level of `h1` … `h6`, and 0 for every other name. */
  function HeadingLevel(tag: string): (k: nat)
    ensures k <= 6
    ensures k > 0 ==> tag == "h" + [DigitChar(k)]
  {
    if tag == "h1" then 1 else if tag == "h2" then 2 else if tag == "h3" then 3
    else if tag == "h4" then 4 else if tag == "h5" then 5 else if tag == "h6" then 6
    else 0
  }

  /** Each of `h1` … `h6` has its digit as level, and the heading rule with that level. */
  lemma HeadingLevelOf(d: nat)
    requires 1 <= d <= 6
    ensures HeadingLevel("h" + [DigitChar(d)]) == d
    ensures RuleOf("h" + [DigitChar(d)]) == Heading(d)
  {
    var tag := "h" + [DigitChar(d)];
    if d == 1 { assert tag == "h1"; }
    else if d == 2 { assert tag == "h2"; }
    else if d == 3 { assert tag == "h3"; }
    else if d == 4 { assert tag == "h4"; }
    else if d == 5 { assert tag == "h5"; }
    else { assert tag == "h6"; }
  }

  /** The rules of the emitter's `if`/`elif` chain, one per branch. */
  datatype Rule =
    | Heading(level: nat)
    | Paragraph
    | Link
    | Strong
    | Emphasis
    | InlineCode
    | Preformatted
    | BulletList
    | NumberedList
    | ListItem
    | Quote
    | HorizontalRule
    | LineBreak
    | Image
    | Table
    | Skipped
    | Transparent

  /** The tag names that one of the emitter's branches names explicitly. */
  const NamedTags: set<string> :=
    {"h1", "h2", "h3", "h4", "h5", "h6", "p", "a", "strong", "b", "em", "i", "code", "pre",
     "ul", "ol", "li", "blockquote", "hr", "br", "img", "table", "button", "script", "style"}

  /** The branch taken for an element of that name: the first test of the chain it passes. */
  function RuleOf(tag: string): (r: Rule)
    ensures r.Heading? <==> HeadingLevel(tag) > 0
    ensures r.Heading? ==> r.level == HeadingLevel(tag)
    ensures r == Skipped <==> tag in {"button", "script", "style"}
    ensures r == Transparent <==> tag !in NamedTags
  {
    if HeadingLevel(tag) > 0 then Heading(HeadingLevel(tag))
    else if tag == "p" then Paragraph
    else if tag == "a" then Link
    else if tag == "strong" || tag == "b" then Strong
    else if tag == "em" || tag == "i" then Emphasis
    else if tag == "code" then InlineCode
    else if tag == "pre" then Preformatted
    else if tag == "ul" then BulletList
    else if tag == "ol" then NumberedList
    else if tag == "li" then ListItem
    else if tag == "blockquote" then Quote
    else if tag == "hr" then HorizontalRule
    else if tag == "br" then LineBreak
    else if tag == "img" then Image
    else if tag == "table" then Table
    else if tag == "button" || tag == "script" || tag == "style" then Skipped
    else Transparent
  }

  const LanguagePrefix := "language-"

  /** The fence language of a `pre`: every class is scanned and the last one that starts with
      `language-` wins, with every `language-` in it removed. */
  function Language(classes: seq<string>): string {
    if classes == [] then ""
    else
      var last := classes[|classes| - 1];
      if StartsWith(last, LanguagePrefix) then ReplaceAll(last, LanguagePrefix, "")
      else Language(classes[..|classes| - 1])
  }

  /** Without a `language-` class the fence has no language. */
  lemma {:induction false} LanguageNone(classes: seq<string>)
    requires forall j :: 0 <= j < |classes| ==> !StartsWith(classes[j], LanguagePrefix)
    ensures Language(classes) == ""
  {
    if classes != [] {
      var init := classes[..|classes| - 1];
      assert forall j :: 0 <= j < |init| ==> init[j] == classes[j];
      LanguageNone(init);
    }
  }

  /** The last `language-` class gives the language, with `language-` removed from it. */
  lemma {:induction false} LanguageLastWins(classes: seq<string>, j: nat)
    requires j < |classes| && StartsWith(classes[j], LanguagePrefix)
    requires forall k :: j < k < |classes| ==> !StartsWith(classes[k], LanguagePrefix)
    ensures Language(classes) == ReplaceAll(classes[j], LanguagePrefix, "")
  {
    if j < |classes| - 1 {
      var init := classes[..|classes| - 1];
      assert forall k :: j < k < |init| ==> init[k] == classes[k];
      LanguageLastWins(init, j);
    }
  }

  /** One quoted line of a `blockquote`: blank lines become a bare `>`. */
  function QuoteLine(line: string): string {
    if Strip(line) == [] then ">\n" else "> " + line + "\n"
  }

  /** The first `k` lines, quoted. */
  function QuoteLines(lines: seq<string>, k: nat): string
    requires k <= |lines|
  {
    if k == 0 then [] else QuoteLines(lines, k - 1) + QuoteLine(lines[k - 1])
  }

  /** A table row: the cells joined by `" | "` between a leading `"| "` and a trailing `" |"`. */
  function RowLine(cells: seq<string>): string {
    "| " + JoinWith(cells, " | ") + " |\n"
  }

  /** A body row right-padded with empty cells up to the header's width; longer rows are kept. */
  function Pad(row: seq<string>, width: nat): (r: seq<string>)
    ensures |r| == if |row| < width then width else |row|
    ensures r[..|row|] == row
    ensures forall j :: |row| <= j < |r| ==> r[j] == ""
  {
    if |row| < width then row + Repeat("", width - |row|) else row
  }

  /** The first `k` body rows, each padded and written as a row line. */
  function RowLines(rows: seq<seq<string>>, k: nat, width: nat): string
    requires k <= |rows|
  {
    if k == 0 then [] else RowLines(rows, k - 1, width) + RowLine(Pad(rows[k - 1], width))
  }

  /** The `li` children of a list, in order (`find_all('li', recursive=False)`). */
  function DirectItems(cs: seq<Node>): (r: seq<Node>)
    ensures forall i :: 0 <= i < |r| ==> IsElementNamed(r[i], "li")
    ensures SizeAll(r) <= SizeAll(cs)
  {
    if cs == [] then []
    else
      var init := DirectItems(cs[..|cs| - 1]);
      var last := cs[|cs| - 1];
      if IsElementNamed(last, "li") then
        assert (init + [last])[..|init|] == init;
        init + [last]
      else init
  }

  // ---------------------------------------------------------------------------
  // The emission function and the walks over children it uses
  // ---------------------------------------------------------------------------

  /** The Markdown text written for node `n` whose parent element is named `parent`: the
      stripped text of a text node, or what the element's rule writes. */
  function Emit(n: Node, parent: string): string
    decreases Size(n), 2
  {
    match n
    case Text(t) => Strip(t)
    case Element(_, _, _, _) => EmitElement(n, parent)
  }

  /** What the branch of `RuleOf(n.tag)` writes for element `n`. */
  function EmitElement(n: Node, parent: string): string
    requires n.Element?
    decreases Size(n), 1
  {
    var tag, attrs, cs := n.tag, n.attrs, n.children;
    match RuleOf(tag)
    case Heading(level) => Repeat('#', level) + " " + EmitWithoutButtons(cs, |cs|, tag) + "\n\n"
    case Paragraph => EmitAll(cs, |cs|, tag) + "\n\n"
    case Link =>
      var href := Get(attrs, "href", "#");
      var text := Strip(LinkText(cs, |cs|));
      "[" + (if text == [] then href else text) + "](" + href + ")"
    case Strong => "**" + EmitAll(cs, |cs|, tag) + "**"
    case Emphasis => "*" + EmitAll(cs, |cs|, tag) + "*"
    case InlineCode =>
      if parent == "pre" then EmitAll(cs, |cs|, tag) else "`" + EmitAll(cs, |cs|, tag) + "`"
    case Preformatted => "```" + Language(n.classes) + "\n" + EmitAll(cs, |cs|, tag) + "\n```\n\n"
    case BulletList => "\n" + BulletItems(cs, |cs|) + "\n"
    case NumberedList =>
      var items := DirectItems(cs);
      "\n" + NumberedItems(items, |items|) + "\n"
    case ListItem => EmitAll(cs, |cs|, tag)
    case Quote =>
      var lines := BlockquoteLines(cs, |cs|);
      QuoteLines(lines, |lines|) + "\n"
    case HorizontalRule => "\n---\n\n"
    case LineBreak => "\n"
    case Image => "![" + Get(attrs, "alt", "") + "](" + Get(attrs, "src", "") + ")"
    case Table =>
      var headers := TableHeaders(n);
      if headers == [] then []
      else
        var rows := TableRows(n);
        RowLine(headers) + RowLine(Repeat("---", |headers|)) + RowLines(rows, |rows|, |headers|) + "\n"
    case Skipped => []
    case Transparent => EmitAll(cs, |cs|, tag)
  }

  /** The first `k` nodes of `cs` emitted one after another. */
  function EmitAll(cs: seq<Node>, k: nat, parent: string): string
    requires k <= |cs|
    decreases SizeAll(cs), 4, k
  {
    if k == 0 then [] else EmitAll(cs, k - 1, parent) + Emit(cs[k - 1], parent)
  }

  /** The first `k` children of a heading, leaving out every `button` child. */
  function EmitWithoutButtons(cs: seq<Node>, k: nat, parent: string): string
    requires k <= |cs|
    decreases SizeAll(cs), 4, k
  {
    if k == 0 then []
    else
      EmitWithoutButtons(cs, k - 1, parent) +
      (if IsElementNamed(cs[k - 1], "button") then [] else Emit(cs[k - 1], parent))
  }

  /** One piece of a link's raw text: a text child as it is, an `img` child's `alt`, any other
      child emitted. */
  function LinkPiece(c: Node): string
    decreases Size(c), 3
  {
    match c
    case Text(t) => t
    case Element(tag, attrs, _, _) =>
      if tag == "img" then Get(attrs, "alt", "") else Emit(c, "a")
  }

  /** The raw text of a link's first `k` children. */
  function LinkText(cs: seq<Node>, k: nat): string
    requires k <= |cs|
    decreases SizeAll(cs), 4, k
  {
    if k == 0 then [] else LinkText(cs, k - 1) + LinkPiece(cs[k - 1])
  }

  /** One bullet item: `"* "`, the item's children, a newline. */
  function BulletItem(li: Node): string
    requires li.Element?
    decreases Size(li), 3
  {
    "* " + EmitAll(li.children, |li.children|, "li") + "\n"
  }

  /** The items among the first `k` children of a `ul`: every `li` child becomes a bullet. */
  function BulletItems(cs: seq<Node>, k: nat): string
    requires k <= |cs|
    decreases SizeAll(cs), 4, k
  {
    if k == 0 then []
    else BulletItems(cs, k - 1) + (if IsElementNamed(cs[k - 1], "li") then BulletItem(cs[k - 1]) else [])
  }

  /** The `i`-th item of an `ol`, numbered from 1. */
  function NumberedItem(i: nat, li: Node): string
    requires li.Element?
    decreases Size(li), 3
  {
    NatToString(i + 1) + ". " + EmitAll(li.children, |li.children|, "li") + "\n"
  }

  /** The first `k` items of an `ol`, numbered by their position among its `li` children. */
  function NumberedItems(items: seq<Node>, k: nat): string
    requires k <= |items|
    requires forall i :: 0 <= i < |items| ==> items[i].Element?
    decreases SizeAll(items), 4, k
  {
    if k == 0 then [] else NumberedItems(items, k - 1) + NumberedItem(k - 1, items[k - 1])
  }

  /** The lines of the first `k` children of a `blockquote`: each child emitted on its own and
      split into lines. */
  function BlockquoteLines(cs: seq<Node>, k: nat): seq<string>
    requires k <= |cs|
    decreases SizeAll(cs), 4, k
  {
    if k == 0 then [] else BlockquoteLines(cs, k - 1) + SplitLines(Emit(cs[k - 1], "blockquote"))
  }

  /** One stripped table cell. */
  function Cell(f: Found): string
    decreases Size(f.node), 3
  {
    Strip(Emit(f.node, f.parent))
  }

  /** The header cells of a table: every `th` below its first `thead`, emitted and stripped. */
  function TableHeaders(n: Node): seq<string>
    requires n.Element?
    decreases Size(n), 0
  {
    match Find(n.children, "thead")
    case None => []
    case Some(thead) =>
      var ths := FindAll(thead.children, thead.tag, {"th"});
      seq(|ths|, i requires 0 <= i < |ths| => Cell(ths[i]))
  }

  /** A table has no header cells exactly when it has no `thead`, or no element below its
      first `thead` is a `th`. */
  lemma TableHeadersEmpty(n: Node)
    requires n.Element?
    ensures var thead := Find(n.children, "thead");
            TableHeaders(n) == [] <==>
              thead == None || NoneNamed(Descendants(thead.value.children, "thead"), {"th"})
  {
    var thead := Find(n.children, "thead");
    if thead.Some? {
      FindAllNamed(thead.value.children, "thead", {"th"});
      NamedEmpty(Descendants(thead.value.children, "thead"), {"th"});
    }
  }

  /** The body rows of a table: for every `tr` below its first `tbody`, its `td`/`th` cells,
      emitted and stripped. */
  function TableRows(n: Node): seq<seq<string>>
    requires n.Element?
    decreases Size(n), 0
  {
    match Find(n.children, "tbody")
    case None => []
    case Some(tbody) =>
      var trs := FindAll(tbody.children, tbody.tag, {"tr"});
      assert forall i :: 0 <= i < |trs| ==> Size(trs[i].node) < Size(n);
      seq(|trs|, i requires 0 <= i < |trs| => RowCells(trs[i].node))
  }

  /** The stripped `td`/`th` cells of one row. */
  function RowCells(tr: Node): seq<string>
    requires tr.Element?
    decreases Size(tr), 0
  {
    var tds := FindAll(tr.children, tr.tag, {"td", "th"});
    seq(|tds|, i requires 0 <= i < |tds| => Cell(tds[i]))
  }
}
