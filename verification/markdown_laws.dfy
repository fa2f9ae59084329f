/** Laws of the Markdown emission, rule by rule: what each kind of node writes, stated over
    the emissions of its children taken one at a time rather than over the emitter's walks. */
module MarkdownLaws {
  import opened Options
  import opened Strings
  import opened HtmlTree
  import opened MarkdownSpec

  // ---------------------------------------------------------------------------
  // Children emitted one at a time
  // ---------------------------------------------------------------------------

  /** What each child writes on its own, in document order. */
  function Emitted(cs: seq<Node>, parent: string): (r: seq<string>)
    ensures |r| == |cs|
  {
    seq(|cs|, i requires 0 <= i < |cs| => Emit(cs[i], parent))
  }

  lemma EmittedAppend(a: seq<Node>, b: seq<Node>, parent: string)
    ensures Emitted(a + b, parent) == Emitted(a, parent) + Emitted(b, parent)
  {
    var l, r := Emitted(a + b, parent), Emitted(a, parent) + Emitted(b, parent);
    assert |l| == |r|;
    forall i | 0 <= i < |l| ensures l[i] == r[i] {
      if i < |a| { assert (a + b)[i] == a[i]; } else { assert (a + b)[i] == b[i - |a|]; }
    }
  }

  lemma ConcatSingle(x: string)
    ensures Concat([x]) == x
  {
    assert [x][1..] == [];
  }

  lemma EmittedSnoc(cs: seq<Node>, k: nat, parent: string)
    requires 0 < k <= |cs|
    ensures Emitted(cs[..k], parent) == Emitted(cs[..k - 1], parent) + [Emit(cs[k - 1], parent)]
  {
  }

  /** Emitting the first `k` children is concatenating what each of them writes. */
  lemma {:induction false} EmitAllIsConcat(cs: seq<Node>, k: nat, parent: string)
    requires k <= |cs|
    ensures EmitAll(cs, k, parent) == Concat(Emitted(cs[..k], parent))
  {
    if k == 0 {
      assert Emitted(cs[..0], parent) == [];
    } else {
      EmitAllIsConcat(cs, k - 1, parent);
      var last := Emit(cs[k - 1], parent);
      EmittedSnoc(cs, k, parent);
      ConcatAppend(Emitted(cs[..k - 1], parent), [last]);
      ConcatSingle(last);
    }
  }

  /** All the children of a node, emitted one after another. */
  lemma ChildrenConcat(cs: seq<Node>, parent: string)
    ensures EmitAll(cs, |cs|, parent) == Concat(Emitted(cs, parent))
  {
    EmitAllIsConcat(cs, |cs|, parent);
    assert cs[..|cs|] == cs;
  }

  // ---------------------------------------------------------------------------
  // Text nodes
  // ---------------------------------------------------------------------------

  /** A text node writes nothing when it is white space only, and otherwise its text with the
      surrounding white space removed: non-empty, starting and ending with a non-space. */
  lemma TextLaw(t: string, parent: string)
    ensures Emit(Text(t), parent) == [] <==> AllSpace(t)
    ensures !AllSpace(t) ==> Emit(Text(t), parent) == Strip(t) &&
                             !IsSpace(Strip(t)[0]) && !IsSpace(Strip(t)[|Strip(t)| - 1])
  {
    StripEmpty(t);
    StripTrimmed(t);
  }

  // ---------------------------------------------------------------------------
  // Rules that wrap the children's emissions
  // ---------------------------------------------------------------------------

  /** `strong`/`b` and `em`/`i` write their children, in order, between `**` or `*`. */
  lemma InlineWrapLaw(n: Node, parent: string)
    requires n.Element? && n.tag in {"strong", "b", "em", "i"}
    ensures var inner := Concat(Emitted(n.children, n.tag));
      && (n.tag in {"strong", "b"} ==> Emit(n, parent) == "**" + inner + "**")
      && (n.tag in {"em", "i"} ==> Emit(n, parent) == "*" + inner + "*")
  {
    RuleOfInline();
    ElementEmit(n, parent);
    ChildrenConcat(n.children, n.tag);
  }

  /** `Emit` on an element is the branch of its rule. */
  lemma ElementEmit(n: Node, parent: string)
    requires n.Element?
    ensures Emit(n, parent) == EmitElement(n, parent)
  {
  }

  lemma RuleOfInline()
    ensures RuleOf("strong") == RuleOf("b") == Strong
    ensures RuleOf("em") == RuleOf("i") == Emphasis
  {
  }

  lemma RuleOfBlocks()
    ensures RuleOf("p") == Paragraph && RuleOf("li") == ListItem
  {
  }

  /** `p` writes its children, one after another, followed by a blank line. */
  lemma ParagraphLaw(n: Node, parent: string)
    requires n.Element? && n.tag == "p"
    ensures Emit(n, parent) == Concat(Emitted(n.children, n.tag)) + "\n\n"
  {
    RuleOfBlocks();
    ElementEmit(n, parent);
    ChildrenConcat(n.children, n.tag);
  }

  /** `li`, and every tag that no branch names, writes exactly its children, one after
      another. */
  lemma TransparentLaw(n: Node, parent: string)
    requires n.Element? && (n.tag == "li" || n.tag !in NamedTags)
    ensures Emit(n, parent) == Concat(Emitted(n.children, n.tag))
  {
    var cs := n.children;
    if n.tag == "li" {
      RuleOfBlocks();
      ChildrenEmit(n, parent, ListItem);
    } else {
      assert RuleOf(n.tag) == Transparent;
      ChildrenEmit(n, parent, Transparent);
    }
    ChildrenConcat(cs, n.tag);
  }

  /** An `li` and an element of an unnamed tag write all their children. */
  lemma ChildrenEmit(n: Node, parent: string, rule: Rule)
    requires n.Element? && RuleOf(n.tag) == rule && rule in {ListItem, Transparent}
    ensures Emit(n, parent) == EmitAll(n.children, |n.children|, n.tag)
  {
    ElementEmit(n, parent);
  }

  /** `button`, `script` and `style` write nothing at all, whatever they hold. */
  lemma SkippedLaw(n: Node, parent: string)
    requires n.Element? && n.tag in {"button", "script", "style"}
    ensures Emit(n, parent) == []
  {
    assert RuleOf(n.tag) == Skipped;
    ElementEmit(n, parent);
  }

  /** A `p` or a heading without children still writes its markers (a childless element is
      not dropped): a blank line, and for `h1` … `h6` that many `#` signs and a space first. */
  lemma ChildlessBlocks(d: nat, attrs: map<string, string>, classes: seq<string>, parent: string)
    requires 1 <= d <= 6
    ensures Emit(Element("p", attrs, classes, []), parent) == "\n\n"
    ensures Emit(Element("h" + [DigitChar(d)], attrs, classes, []), parent) == Repeat('#', d) + " \n\n"
  {
    var para, head := Element("p", attrs, classes, []), Element("h" + [DigitChar(d)], attrs, classes, []);
    ParagraphLaw(para, parent);
    assert Emitted([], "p") == [];
    HeadingLevelOf(d);
    HeadingLaw(head, parent);
    assert Emitted([], head.tag) == [];
  }

  // ---------------------------------------------------------------------------
  // Headings
  // ---------------------------------------------------------------------------

  /** The children of a heading other than its `button` children, in order. */
  function NonButtons(cs: seq<Node>): (r: seq<Node>)
    ensures forall i :: 0 <= i < |r| ==> !IsElementNamed(r[i], "button")
  {
    if cs == [] then []
    else
      var last := cs[|cs| - 1];
      NonButtons(cs[..|cs| - 1]) + (if IsElementNamed(last, "button") then [] else [last])
  }

  /** The heading walk writes exactly the non-`button` children, in order. */
  lemma {:induction false} WithoutButtonsIsConcat(cs: seq<Node>, k: nat, parent: string)
    requires k <= |cs|
    ensures EmitWithoutButtons(cs, k, parent) == Concat(Emitted(NonButtons(cs[..k]), parent))
  {
    if k == 0 {
      assert cs[..0] == [];
    } else {
      WithoutButtonsIsConcat(cs, k - 1, parent);
      var c := cs[k - 1];
      assert cs[..k][..k - 1] == cs[..k - 1];
      var front := NonButtons(cs[..k - 1]);
      var tail := if IsElementNamed(c, "button") then [] else [c];
      assert NonButtons(cs[..k]) == front + tail;
      EmittedAppend(front, tail, parent);
      ConcatAppend(Emitted(front, parent), Emitted(tail, parent));
      if tail == [] {
        assert Emitted(tail, parent) == [];
      } else {
        assert Emitted(tail, parent) == [Emit(c, parent)];
        ConcatSingle(Emit(c, parent));
      }
    }
  }

  /** Leaving the `button` children out changes nothing: a `button` writes nothing anyway. */
  lemma {:induction false} ButtonSkipRedundant(cs: seq<Node>, k: nat, parent: string)
    requires k <= |cs|
    ensures EmitWithoutButtons(cs, k, parent) == EmitAll(cs, k, parent)
  {
    if k > 0 {
      ButtonSkipRedundant(cs, k - 1, parent);
      if IsElementNamed(cs[k - 1], "button") {
        assert Emit(cs[k - 1], parent) == [];
      }
    }
  }

  /** `h1` … `h6` write as many `#` as their level and a space, then their non-`button`
      children, then a blank line; that is the same text as all their children. */
  lemma HeadingLaw(n: Node, parent: string)
    requires n.Element? && HeadingLevel(n.tag) > 0
    ensures var level, cs := HeadingLevel(n.tag), n.children;
      && Emit(n, parent) == Repeat('#', level) + " " + Concat(Emitted(NonButtons(cs), n.tag)) + "\n\n"
      && Emit(n, parent) == Repeat('#', level) + " " + Concat(Emitted(cs, n.tag)) + "\n\n"
  {
    var cs := n.children;
    WithoutButtonsIsConcat(cs, |cs|, n.tag);
    ButtonSkipRedundant(cs, |cs|, n.tag);
    ChildrenConcat(cs, n.tag);
    assert cs[..|cs|] == cs;
  }

  // ---------------------------------------------------------------------------
  // Links
  // ---------------------------------------------------------------------------

  /** The raw text pieces of a link's children, one per child. */
  function LinkPieces(cs: seq<Node>): (r: seq<string>)
    ensures |r| == |cs|
  {
    seq(|cs|, i requires 0 <= i < |cs| => LinkPiece(cs[i]))
  }

  lemma {:induction false} LinkTextIsConcat(cs: seq<Node>, k: nat)
    requires k <= |cs|
    ensures LinkText(cs, k) == Concat(LinkPieces(cs[..k]))
  {
    if k == 0 {
      assert LinkPieces(cs[..0]) == [];
    } else {
      LinkTextIsConcat(cs, k - 1);
      var last := LinkPiece(cs[k - 1]);
      assert LinkPieces(cs[..k]) == LinkPieces(cs[..k - 1]) + [last];
      ConcatAppend(LinkPieces(cs[..k - 1]), [last]);
      ConcatSingle(last);
    }
  }

  /** `a` writes `[text](href)`: `href` is the attribute or `#` when it is missing, `text` the
      stripped raw text of its children, or `href` again when that text is white space only. */
  lemma LinkLaw(n: Node, parent: string)
    requires n.Element? && n.tag == "a"
    ensures var href, raw := Get(n.attrs, "href", "#"), Concat(LinkPieces(n.children));
      && (AllSpace(raw) ==> Emit(n, parent) == "[" + href + "](" + href + ")")
      && (!AllSpace(raw) ==> Emit(n, parent) == "[" + Strip(raw) + "](" + href + ")")
      && ("href" !in n.attrs && AllSpace(raw) ==> Emit(n, parent) == "[#](#)")
  {
    var cs := n.children;
    LinkTextIsConcat(cs, |cs|);
    assert cs[..|cs|] == cs;
    StripEmpty(Concat(LinkPieces(cs)));
  }

  // ---------------------------------------------------------------------------
  // Code
  // ---------------------------------------------------------------------------

  /** `code` writes its children bare when its parent is a `pre`, and between backticks
      otherwise. */
  lemma CodeLaw(n: Node, parent: string)
    requires n.Element? && n.tag == "code"
    ensures var inner := Concat(Emitted(n.children, "code"));
      && (parent == "pre" ==> Emit(n, parent) == inner)
      && (parent != "pre" ==> Emit(n, parent) == "`" + inner + "`")
  {
    ChildrenConcat(n.children, "code");
  }

  /** `pre` writes a fenced block: the fence with the language of its last `language-` class,
      its children, the closing fence and a blank line. */
  lemma PreLaw(n: Node, parent: string)
    requires n.Element? && n.tag == "pre"
    ensures Emit(n, parent) ==
      "```" + Language(n.classes) + "\n" + Concat(Emitted(n.children, "pre")) + "\n```\n\n"
  {
    ChildrenConcat(n.children, "pre");
  }

  /** A `code` element that is the only child of a `pre` is written without backticks inside
      the fence. */
  lemma FencedCodeLaw(n: Node, parent: string)
    requires n.Element? && n.tag == "pre" && |n.children| == 1
    requires IsElementNamed(n.children[0], "code")
    ensures Emit(n, parent) ==
      "```" + Language(n.classes) + "\n" + Concat(Emitted(n.children[0].children, "code")) + "\n```\n\n"
  {
    var code := n.children[0];
    PreLaw(n, parent);
    CodeLaw(code, "pre");
    assert Emitted(n.children, "pre") == [Emit(code, "pre")];
    ConcatSingle(Emit(code, "pre"));
  }

  // ---------------------------------------------------------------------------
  // Elements whose children are not written
  // ---------------------------------------------------------------------------

  /** `hr`, `br` and `img` write a fixed text (for `img`, built from its `alt` and `src`, each
      empty when missing) whatever their children and their parent. */
  lemma LeafLaw(n: Node, parent: string)
    requires n.Element? && n.tag in {"hr", "br", "img"}
    ensures Emit(n, parent) == Emit(Element(n.tag, n.attrs, n.classes, []), "")
    ensures n.tag == "hr" ==> Emit(n, parent) == "\n---\n\n"
    ensures n.tag == "br" ==> Emit(n, parent) == "\n"
    ensures n.tag == "img" ==>
      Emit(n, parent) == "![" + Get(n.attrs, "alt", "") + "](" + Get(n.attrs, "src", "") + ")"
  {
    var bare := Element(n.tag, n.attrs, n.classes, []);
    ElementEmit(n, parent);
    ElementEmit(bare, "");
    RuleOfLeaves();
    if n.tag == "hr" {
      assert RuleOf(n.tag) == HorizontalRule;
    } else if n.tag == "br" {
      assert RuleOf(n.tag) == LineBreak;
    } else {
      assert RuleOf(n.tag) == Image;
    }
  }

  lemma RuleOfLeaves()
    ensures RuleOf("hr") == HorizontalRule && RuleOf("br") == LineBreak && RuleOf("img") == Image
  {
  }

  // ---------------------------------------------------------------------------
  // Lists
  // ---------------------------------------------------------------------------

  /** The `li` children of `a + b` are those of `a` followed by those of `b`. */
  lemma {:induction false} DirectItemsAppend(a: seq<Node>, b: seq<Node>)
    ensures DirectItems(a + b) == DirectItems(a) + DirectItems(b)
    decreases |b|
  {
    if b == [] {
      assert a + b == a;
    } else {
      var init, last := b[..|b| - 1], b[|b| - 1];
      var extra := if IsElementNamed(last, "li") then [last] else [];
      assert (a + b)[..|a + b| - 1] == a + init && (a + b)[|a + b| - 1] == last;
      assert DirectItems(a + b) == DirectItems(a + init) + extra;
      assert DirectItems(b) == DirectItems(init) + extra;
      DirectItemsAppend(a, init);
      AppendAssoc(DirectItems(a), DirectItems(init), extra);
    }
  }

  /** A child that is not an `li` contributes no item, wherever it stands. */
  lemma NonItemIgnored(a: seq<Node>, c: Node, b: seq<Node>)
    requires !IsElementNamed(c, "li")
    ensures DirectItems(a + [c] + b) == DirectItems(a + b)
  {
    DirectItemsAppend(a + [c], b);
    DirectItemsAppend(a, [c]);
    DirectItemsAppend(a, b);
    assert [c][..0] == [];
  }

  /** The bullet written for each item of a `ul`. */
  function Bullets(items: seq<Node>): (r: seq<string>)
    requires forall i :: 0 <= i < |items| ==> items[i].Element?
    ensures |r| == |items|
  {
    seq(|items|, j requires 0 <= j < |items| => BulletItem(items[j]))
  }

  /** The numbered entry written for each item of an `ol`, counting from 1. */
  function Numbered(items: seq<Node>): (r: seq<string>)
    requires forall i :: 0 <= i < |items| ==> items[i].Element?
    ensures |r| == |items|
  {
    seq(|items|, j requires 0 <= j < |items| => NumberedItem(j, items[j]))
  }

  lemma BulletsAppend(a: seq<Node>, b: seq<Node>)
    requires forall i :: 0 <= i < |a| ==> a[i].Element?
    requires forall i :: 0 <= i < |b| ==> b[i].Element?
    ensures Bullets(a + b) == Bullets(a) + Bullets(b)
  {
    var l, r := Bullets(a + b), Bullets(a) + Bullets(b);
    forall i | 0 <= i < |l| ensures l[i] == r[i] {
      if i < |a| { assert (a + b)[i] == a[i]; } else { assert (a + b)[i] == b[i - |a|]; }
    }
  }

  lemma DirectItemsSingle(c: Node)
    ensures DirectItems([c]) == if IsElementNamed(c, "li") then [c] else []
  {
    assert [c][..0] == [];
  }

  lemma DirectItemsSnoc(cs: seq<Node>, k: nat)
    requires 0 < k <= |cs|
    ensures DirectItems(cs[..k]) == DirectItems(cs[..k - 1]) + DirectItems([cs[k - 1]])
  {
    TakeSnoc(cs, k - 1);
    DirectItemsAppend(cs[..k - 1], [cs[k - 1]]);
  }

  /** The `ul` walk over all children writes one bullet per `li` child, in order. */
  lemma {:induction false} BulletItemsAreItems(cs: seq<Node>, k: nat)
    requires k <= |cs|
    ensures BulletItems(cs, k) == Concat(Bullets(DirectItems(cs[..k])))
  {
    if k == 0 {
      assert cs[..0] == [];
    } else {
      BulletItemsAreItems(cs, k - 1);
      BulletsSnoc(cs, k);
    }
  }

  /** The bullets of the first `k` children: those of the first `k - 1`, then the bullet of
      child `k - 1` when it is an `li`. */
  lemma BulletsSnoc(cs: seq<Node>, k: nat)
    requires 0 < k <= |cs|
    ensures Concat(Bullets(DirectItems(cs[..k]))) ==
            Concat(Bullets(DirectItems(cs[..k - 1]))) +
            (if IsElementNamed(cs[k - 1], "li") then BulletItem(cs[k - 1]) else [])
  {
    var c := cs[k - 1];
    DirectItemsSnoc(cs, k);
    var front, tail := DirectItems(cs[..k - 1]), DirectItems([c]);
    BulletsAppend(front, tail);
    ConcatAppend(Bullets(front), Bullets(tail));
    BulletOfOne(c);
  }

  lemma BulletOfOne(c: Node)
    ensures Concat(Bullets(DirectItems([c]))) == if IsElementNamed(c, "li") then BulletItem(c) else []
  {
    DirectItemsSingle(c);
    if IsElementNamed(c, "li") {
      assert Bullets([c]) == [BulletItem(c)];
      ConcatSingle(BulletItem(c));
    } else {
      assert Bullets([]) == [];
    }
  }

  /** The `ol` walk writes one numbered entry per item, in order. */
  lemma {:induction false} NumberedItemsAreItems(items: seq<Node>, k: nat)
    requires k <= |items|
    requires forall i :: 0 <= i < |items| ==> items[i].Element?
    ensures NumberedItems(items, k) == Concat(Numbered(items[..k]))
  {
    if k == 0 {
      assert Numbered(items[..0]) == [];
    } else {
      NumberedItemsAreItems(items, k - 1);
      var last := NumberedItem(k - 1, items[k - 1]);
      assert Numbered(items[..k]) == Numbered(items[..k - 1]) + [last];
      ConcatAppend(Numbered(items[..k - 1]), [last]);
      ConcatSingle(last);
    }
  }

  /** `ul` writes a bullet and `ol` a numbered entry for each of its `li` children, in order,
      between two newlines; nothing else among its children is written. */
  lemma ListLaw(n: Node, parent: string)
    requires n.Element? && n.tag in {"ul", "ol"}
    ensures var items := DirectItems(n.children);
      && (n.tag == "ul" ==> Emit(n, parent) == "\n" + Concat(Bullets(items)) + "\n")
      && (n.tag == "ol" ==> Emit(n, parent) == "\n" + Concat(Numbered(items)) + "\n")
  {
    var cs := n.children;
    assert cs[..|cs|] == cs;
    ListEmit(n, parent);
    if n.tag == "ul" {
      BulletItemsAreItems(cs, |cs|);
    } else {
      var items := DirectItems(cs);
      NumberedItemsAreItems(items, |items|);
      assert items[..|items|] == items;
    }
  }

  lemma ListEmit(n: Node, parent: string)
    requires n.Element? && n.tag in {"ul", "ol"}
    ensures var cs, items := n.children, DirectItems(n.children);
      && (n.tag == "ul" ==> Emit(n, parent) == "\n" + BulletItems(cs, |cs|) + "\n")
      && (n.tag == "ol" ==> Emit(n, parent) == "\n" + NumberedItems(items, |items|) + "\n")
  {
    RuleOfLists();
    ElementEmit(n, parent);
  }

  lemma RuleOfLists()
    ensures RuleOf("ul") == BulletList && RuleOf("ol") == NumberedList
  {
  }

  /** The entry of the `i`-th item (from 0): `* ` or the decimal number `i + 1` and `. `, then
      the item's children, then a newline; the number reads back as `i + 1`. */
  lemma ItemLaw(i: nat, li: Node)
    requires li.Element?
    ensures var body := Concat(Emitted(li.children, "li"));
      && BulletItem(li) == "* " + body + "\n"
      && NumberedItem(i, li) == NatToString(i + 1) + ". " + body + "\n"
      && ParseDecimal(NatToString(i + 1)) == i + 1
  {
    ChildrenConcat(li.children, "li");
    ParseNatToString(i + 1);
  }

  /** Two lists of the same kind with the same `li` children write the same text, whatever
      their other children, attributes or parents. */
  lemma ListsDependOnItemsOnly(n: Node, m: Node, p: string, q: string)
    requires n.Element? && m.Element? && n.tag == m.tag && n.tag in {"ul", "ol"}
    requires DirectItems(n.children) == DirectItems(m.children)
    ensures Emit(n, p) == Emit(m, q)
  {
    ListLaw(n, p);
    ListLaw(m, q);
  }

  // ---------------------------------------------------------------------------
  // Block quotes
  // ---------------------------------------------------------------------------

  /** Each line of a block quote as it is written, without its newline. */
  function Quoted(lines: seq<string>): (r: seq<string>)
    ensures |r| == |lines|
  {
    seq(|lines|, j requires 0 <= j < |lines| => if AllSpace(lines[j]) then ">" else "> " + lines[j])
  }

  lemma TerminatedSingle(x: string)
    ensures Terminated([x]) == x + "\n"
  {
    assert [x][1..] == [];
  }

  lemma QuotedAppend(a: seq<string>, b: seq<string>)
    ensures Quoted(a + b) == Quoted(a) + Quoted(b)
  {
    var l, r := Quoted(a + b), Quoted(a) + Quoted(b);
    forall i | 0 <= i < |l| ensures l[i] == r[i] {
      if i < |a| { assert (a + b)[i] == a[i]; } else { assert (a + b)[i] == b[i - |a|]; }
    }
  }

  /** `QuoteLine` is the quoted line followed by its newline. */
  lemma QuoteLineIsQuoted(line: string)
    ensures QuoteLine(line) == Quoted([line])[0] + "\n"
  {
    StripEmpty(line);
  }

  lemma QuotedSnoc(lines: seq<string>, k: nat)
    requires 0 < k <= |lines|
    ensures Quoted(lines[..k]) == Quoted(lines[..k - 1]) + [Quoted([lines[k - 1]])[0]]
  {
    TakeSnoc(lines, k - 1);
    QuotedAppend(lines[..k - 1], [lines[k - 1]]);
    assert Quoted([lines[k - 1]]) == [Quoted([lines[k - 1]])[0]];
  }

  lemma {:induction false} QuoteLinesTerminated(lines: seq<string>, k: nat)
    requires k <= |lines|
    ensures QuoteLines(lines, k) == Terminated(Quoted(lines[..k]))
  {
    if k == 0 {
      assert Quoted(lines[..0]) == [];
    } else {
      QuoteLinesTerminated(lines, k - 1);
      var q := Quoted([lines[k - 1]])[0];
      QuoteLineIsQuoted(lines[k - 1]);
      QuotedSnoc(lines, k);
      TerminatedAppend(Quoted(lines[..k - 1]), [q]);
      TerminatedSingle(q);
    }
  }

  /** No line collected from a block quote's children holds a newline. */
  lemma {:induction false} BlockquoteLinesFlat(cs: seq<Node>, k: nat)
    requires k <= |cs|
    ensures forall j :: 0 <= j < |BlockquoteLines(cs, k)| ==> '\n' !in BlockquoteLines(cs, k)[j]
  {
    if k > 0 {
      BlockquoteLinesFlat(cs, k - 1);
      var front, more := BlockquoteLines(cs, k - 1), SplitLines(Emit(cs[k - 1], "blockquote"));
      forall j | 0 <= j < |more| ensures '\n' !in more[j] {
        if '\n' in more[j] {
          var i :| 0 <= i < |more[j]| && more[j][i] == '\n';
          assert IsLineBreak(more[j][i]);
        }
      }
      assert BlockquoteLines(cs, k) == front + more;
    }
  }

  lemma SplitNewline()
    ensures SplitOn("\n", '\n') == ["", ""]
  {
    assert IndexOf("\n", '\n') == 0;
    assert "\n"[1..] == [];
  }

  /** A `blockquote` writes one line per line of its children's emitted texts, in order: a
      blank line as a bare `>`, any other line `L` as `> L`; then one empty line. */
  lemma QuoteLaw(n: Node, parent: string)
    requires n.Element? && n.tag == "blockquote"
    ensures var lines := BlockquoteLines(n.children, |n.children|);
            var out := SplitOn(Emit(n, parent), '\n');
      && out == Quoted(lines) + ["", ""]
      && (forall j :: 0 <= j < |lines| ==> StartsWith(out[j], ">"))
      && (forall j :: 0 <= j < |lines| ==> (out[j] == ">" <==> AllSpace(lines[j])))
  {
    var lines := BlockquoteLines(n.children, |n.children|);
    var qs := Quoted(lines);
    QuoteEmit(n, parent);
    QuoteLinesTerminated(lines, |lines|);
    assert lines[..|lines|] == lines;
    BlockquoteLinesFlat(n.children, |n.children|);
    QuotedShape(lines);
    SplitTerminated(qs, "\n");
    SplitNewline();
  }

  lemma QuoteEmit(n: Node, parent: string)
    requires n.Element? && n.tag == "blockquote"
    ensures var lines := BlockquoteLines(n.children, |n.children|);
            Emit(n, parent) == QuoteLines(lines, |lines|) + "\n"
  {
    RuleOfQuote();
    ElementEmit(n, parent);
  }

  lemma RuleOfQuote()
    ensures RuleOf("blockquote") == Quote
  {
  }

  /** Quoting keeps lines free of newlines; every quoted line starts with `>` and is a bare `>`
      exactly for a blank line. */
  lemma QuotedShape(lines: seq<string>)
    requires forall j :: 0 <= j < |lines| ==> '\n' !in lines[j]
    ensures forall j :: 0 <= j < |lines| ==> '\n' !in Quoted(lines)[j]
    ensures forall j :: 0 <= j < |lines| ==>
              StartsWith(Quoted(lines)[j], ">") && (Quoted(lines)[j] == ">" <==> AllSpace(lines[j]))
  {
    var qs := Quoted(lines);
    forall j | 0 <= j < |lines|
      ensures '\n' !in qs[j] && StartsWith(qs[j], ">") && (qs[j] == ">" <==> AllSpace(lines[j]))
    {
      if !AllSpace(lines[j]) {
        assert qs[j] == "> " + lines[j];
        assert |qs[j]| >= 2;
      }
    }
  }

  // ---------------------------------------------------------------------------
  // Tables
  // ---------------------------------------------------------------------------

  /** The body rows as they are written: each padded to `width` cells. */
  function BodyRows(rows: seq<seq<string>>, width: nat): (r: seq<string>)
    ensures |r| == |rows|
  {
    seq(|rows|, j requires 0 <= j < |rows| => RowLine(Pad(rows[j], width)))
  }

  lemma BodyRowsSnoc(rows: seq<seq<string>>, k: nat, width: nat)
    requires 0 < k <= |rows|
    ensures BodyRows(rows[..k], width) == BodyRows(rows[..k - 1], width) + [RowLine(Pad(rows[k - 1], width))]
  {
  }

  lemma {:induction false} RowLinesIsConcat(rows: seq<seq<string>>, k: nat, width: nat)
    requires k <= |rows|
    ensures RowLines(rows, k, width) == Concat(BodyRows(rows[..k], width))
  {
    if k == 0 {
      assert BodyRows(rows[..0], width) == [];
    } else {
      RowLinesIsConcat(rows, k - 1, width);
      var last := RowLine(Pad(rows[k - 1], width));
      BodyRowsSnoc(rows, k, width);
      ConcatAppend(BodyRows(rows[..k - 1], width), [last]);
      ConcatSingle(last);
    }
  }

  /** A table with no `th` below its first `thead` (or no `thead` at all) writes nothing;
      otherwise it writes the header row, the separator row with one `---` per header, and
      every body row padded to the header's width, then a blank line. */
  lemma TableLaw(n: Node, parent: string)
    requires n.Element? && n.tag == "table"
    ensures var headers, rows := TableHeaders(n), TableRows(n);
      && (headers == [] ==> Emit(n, parent) == [])
      && (headers != [] ==>
            Emit(n, parent) == RowLine(headers) + RowLine(Repeat("---", |headers|)) +
                               Concat(BodyRows(rows, |headers|)) + "\n")
    ensures Find(n.children, "thead") == None ==> Emit(n, parent) == []
  {
    var rows := TableRows(n);
    RuleOfTable();
    ElementEmit(n, parent);
    RowLinesIsConcat(rows, |rows|, |TableHeaders(n)|);
    assert rows[..|rows|] == rows;
  }

  /** A table writes nothing when no element below it is a `thead`, or when no element below
      its first `thead` is a `th`. */
  lemma HeaderlessTable(n: Node, parent: string)
    requires n.Element? && n.tag == "table"
    ensures NoneNamed(Descendants(n.children, ""), {"thead"}) ==> Emit(n, parent) == []
    ensures var thead := Find(n.children, "thead");
            thead.Some? && NoneNamed(Descendants(thead.value.children, "thead"), {"th"}) ==>
              Emit(n, parent) == []
  {
    FindFirst(n.children, "thead");
    TableHeadersEmpty(n);
    TableLaw(n, parent);
  }

  lemma RuleOfTable()
    ensures RuleOf("table") == Table
  {
  }

  lemma MulStep(n: nat, q: nat, m: nat)
    requires n >= 1
    ensures q + m + (n * q + (n - 1) * m) == (n + 1) * q + n * m
  {
    assert (n + 1) * q == n * q + q;
    assert n * m == (n - 1) * m + m;
  }

  /** Joining cells that each hold `q` copies of `c` with a separator holding `m` of them. */
  lemma {:induction false} JoinCount(cells: seq<string>, sep: string, c: char, q: nat)
    requires cells != []
    requires forall i :: 0 <= i < |cells| ==> CountChar(cells[i], c) == q
    ensures CountChar(JoinWith(cells, sep), c) == |cells| * q + (|cells| - 1) * CountChar(sep, c)
  {
    var m := CountChar(sep, c);
    if |cells| > 1 {
      var rest := cells[1..];
      var n := |rest|;
      JoinCount(rest, sep, c, q);
      CountCharAppend(cells[0] + sep, JoinWith(rest, sep), c);
      CountCharAppend(cells[0], sep, c);
      assert JoinWith(cells, sep) == cells[0] + sep + JoinWith(rest, sep);
      MulStep(n, q, m);
    }
  }

  /** A row of cells without `|` is written with one more `|` than it has cells. */
  lemma RowLineColumns(cells: seq<string>)
    requires cells != []
    requires forall i :: 0 <= i < |cells| ==> '|' !in cells[i]
    ensures CountChar(RowLine(cells), '|') == |cells| + 1
  {
    forall i | 0 <= i < |cells| ensures CountChar(cells[i], '|') == 0 {
      CountCharAbsent(cells[i], '|');
    }
    JoinCount(cells, " | ", '|', 0);
    var j := JoinWith(cells, " | ");
    assert CountChar(" | ", '|') == 1;
    CountCharAppend("| " + j, " |\n", '|');
    CountCharAppend("| ", j, '|');
    assert CountChar(" |\n", '|') == 1;
    assert CountChar("| ", '|') == 1;
  }

  /** The separator row of `m` headers has `m` columns of three dashes each. */
  lemma SeparatorRow(m: nat)
    requires m >= 1
    ensures CountChar(RowLine(Repeat("---", m)), '|') == m + 1
    ensures CountChar(RowLine(Repeat("---", m)), '-') == 3 * m
  {
    var cells := Repeat("---", m);
    RowLineColumns(cells);
    assert CountChar("---", '-') == 3;
    JoinCount(cells, " | ", '-', 3);
    var j := JoinWith(cells, " | ");
    assert CountChar(" | ", '-') == 0;
    CountCharAppend("| " + j, " |\n", '-');
    CountCharAppend("| ", j, '-');
    assert CountChar(" |\n", '-') == 0;
    assert CountChar("| ", '-') == 0;
  }

  /** A body row of cells without `|` has at least as many columns as the header row and
      never fewer than its own cells: short rows are padded, long rows are kept whole. */
  lemma BodyRowColumns(row: seq<string>, width: nat)
    requires width >= 1
    requires forall i :: 0 <= i < |row| ==> '|' !in row[i]
    ensures CountChar(RowLine(Pad(row, width)), '|') == (if |row| < width then width else |row|) + 1
  {
    var padded := Pad(row, width);
    forall i | 0 <= i < |padded| ensures '|' !in padded[i] {
      if i < |row| {
        assert padded[i] == padded[..|row|][i];
      }
    }
    RowLineColumns(padded);
  }
}
