/** The e-mail text migrations 1767225800000 and 1767225820000: text to blocks to documents and back. */
module EmailText {
  import opened Options
  import opened Strings
  import opened RichText

  // ---- textToDoc ----

  /** The nodes of the lines from `index` on: a hard break before every line but the first, no empty text. */
  function LineNodes(lines: seq<string>, index: nat): seq<Node>
    requires index <= |lines|
    decreases |lines| - index
  {
    if index == |lines| then []
    else OneLine(lines[index], index) + LineNodes(lines, index + 1)
  }

  function OneLine(line: string, index: nat): seq<Node> {
    (if index > 0 then [HARD_BREAK] else []) + (if line != "" then [Text(line)] else [])
  }

  function ParagraphOf(part: string): Node {
    var content := LineNodes(Split(part, "\n"), 0);
    Node("paragraph", None, None, if content != [] then Some(content) else None)
  }

  function TextToDoc(text: string): Node {
    var parts := Split(Normalize(text), BLANK_LINE);
    Node("doc", None, None, Some(seq(|parts|, i requires 0 <= i < |parts| => ParagraphOf(parts[i]))))
  }

  /** The callback of textToDoc: pushes the nodes of one part line by line. */
  method BuildParagraph(part: string) returns (paragraph: Node)
    ensures paragraph == ParagraphOf(part)
  {
    var lines := Split(part, "\n");
    var content: seq<Node> := [];
    for index := 0 to |lines|
      invariant content + LineNodes(lines, index) == LineNodes(lines, 0)
    {
      if index > 0 {
        content := content + [HARD_BREAK];
      }
      if lines[index] != "" {
        content := content + [Text(lines[index])];
      }
    }
    assert content == LineNodes(lines, 0);
    paragraph := Node("paragraph", None, None, if |content| > 0 then Some(content) else None);
  }

  // ---- docToText ----

  function NodeToText(n: Node): string {
    if n.kind == "hardBreak" then "\n"
    else
      var href := LinkHref(Marks(n));
      if href.Some? && href.value != TextOf(n) then TextOf(n) + " (" + href.value + ")" else TextOf(n)
  }

  function NodesToText(nodes: seq<Node>): string {
    if nodes == [] then "" else NodeToText(nodes[0]) + NodesToText(nodes[1..])
  }

  function ParagraphToText(paragraph: Node): string {
    NodesToText(Children(paragraph))
  }

  function ParagraphsToText(paragraphs: seq<Node>): seq<string> {
    seq(|paragraphs|, i requires 0 <= i < |paragraphs| => ParagraphToText(paragraphs[i]))
  }

  function ItemToText(listKind: string, item: Node, index: nat): string {
    (if listKind == "orderedList" then Decimal(index + 1) + "." else "-") + " " + Join(ParagraphsToText(Children(item)), "\n")
  }

  function BlockToText(block: Node): string {
    if block.kind == "paragraph" then ParagraphToText(block)
    else
      var items := Children(block);
      Join(seq(|items|, i requires 0 <= i < |items| => ItemToText(block.kind, items[i], i)), "\n")
  }

  function DocToText(doc: Node): string {
    var blocks := Children(doc);
    Join(seq(|blocks|, i requires 0 <= i < |blocks| => BlockToText(blocks[i])), BLANK_LINE)
  }

  // ---- Round trip through a document ----

  lemma {:induction false} NodesToTextConcat(a: seq<Node>, b: seq<Node>)
    ensures NodesToText(a + b) == NodesToText(a) + NodesToText(b)
  {
    if a == [] {
      assert a + b == b;
    } else {
      NodesToTextConcat(a[1..], b);
      FirstNode(a, b);
      ConcatAssociates(NodeToText(a[0]), NodesToText(a[1..]), NodesToText(b));
    }
  }

  lemma FirstNode(a: seq<Node>, b: seq<Node>)
    requires a != []
    ensures NodesToText(a + b) == NodeToText(a[0]) + NodesToText(a[1..] + b)
  {
    assert (a + b)[1..] == a[1..] + b;
  }

  lemma OneLineToText(line: string, index: nat)
    ensures NodesToText(OneLine(line, index)) == (if index > 0 then "\n" else "") + line
  {
    var lead := if index > 0 then [HARD_BREAK] else [];
    var text := if line != "" then [Text(line)] else [];
    NodesToTextConcat(lead, text);
    assert index > 0 ==> lead[1..] == [];
    assert line != "" ==> text[1..] == [];
  }

  lemma {:induction false} LineNodesToText(lines: seq<string>, index: nat)
    requires index < |lines|
    ensures NodesToText(LineNodes(lines, index)) == (if index > 0 then "\n" else "") + Join(lines[index..], "\n")
    decreases |lines| - index
  {
    OneLineToText(lines[index], index);
    NodesToTextConcat(OneLine(lines[index], index), LineNodes(lines, index + 1));
    JoinFrom(lines, index);
    if index + 1 < |lines| {
      LineNodesToText(lines, index + 1);
      ConcatAssociates(if index > 0 then "\n" else "", lines[index], "\n" + Join(lines[index + 1..], "\n"));
    }
  }

  lemma JoinFrom(lines: seq<string>, index: nat)
    requires index < |lines|
    ensures Join(lines[index..], "\n") ==
            lines[index] + if index + 1 < |lines| then "\n" + Join(lines[index + 1..], "\n") else ""
  {
    assert lines[index..][1..] == lines[index + 1..];
  }

  lemma ParagraphRoundTrip(part: string)
    ensures ParagraphToText(ParagraphOf(part)) == part
  {
    var lines := Split(part, "\n");
    LineNodesToText(lines, 0);
    assert lines[0..] == lines;
    JoinSplit(part, "\n");
  }

  /** docToText undoes textToDoc up to newline normalisation. */
  lemma DocRoundTrip(text: string)
    ensures DocToText(TextToDoc(text)) == Normalize(text)
  {
    var parts := Split(Normalize(text), BLANK_LINE);
    var blocks := Children(TextToDoc(text));
    var texts := seq(|blocks|, i requires 0 <= i < |blocks| => BlockToText(blocks[i]));
    forall i | 0 <= i < |parts|
      ensures texts[i] == parts[i]
    {
      ParagraphRoundTrip(parts[i]);
    }
    assert texts == parts;
    JoinSplit(Normalize(text), BLANK_LINE);
  }

  // ---- upgradeBlocks and downgradeBlocks ----

  function UpgradeBlock(b: Block): Block {
    if b.kind == "paragraph" && b.text.Some?
    then Block("paragraph", None, Some(TextToDoc(b.text.value)), None, map[])
    else b
  }

  function DowngradeBlock(b: Block): Block {
    if b.kind == "paragraph" && b.content.Some? then PlainParagraph(DocToText(b.content.value))
    else if b.kind == "image" then
      PlainParagraph("[Imagen: " + (if b.alt.Some? then b.alt.value else "") + "]")
    else b
  }

  function PlainParagraph(text: string): Block {
    Block("paragraph", Some(text), None, None, map[])
  }

  function UpgradeBlocks(bs: seq<Block>): seq<Block> {
    seq(|bs|, i requires 0 <= i < |bs| => UpgradeBlock(bs[i]))
  }

  function DowngradeBlocks(bs: seq<Block>): seq<Block> {
    seq(|bs|, i requires 0 <= i < |bs| => DowngradeBlock(bs[i]))
  }

  /** The blocks that existed before the upgrade: no image, no document, and a paragraph is its text. */
  predicate PlainBlock(b: Block) {
    b.kind != "image" && (b.kind == "paragraph" ==> b.content.None? && (b.text.Some? ==> b == PlainParagraph(b.text.value)))
  }

  /** Upgrading is idempotent. */
  lemma UpgradeTwice(bs: seq<Block>)
    ensures UpgradeBlocks(UpgradeBlocks(bs)) == UpgradeBlocks(bs)
  {
    forall i | 0 <= i < |bs|
      ensures UpgradeBlock(UpgradeBlock(bs[i])) == UpgradeBlock(bs[i])
    {
    }
  }

  /** Downgrading undoes upgrading, with the newlines of every paragraph normalised. */
  lemma DowngradeUndoesUpgrade(bs: seq<Block>)
    requires forall i :: 0 <= i < |bs| ==> PlainBlock(bs[i])
    ensures var back := DowngradeBlocks(UpgradeBlocks(bs));
            && |back| == |bs|
            && forall i :: 0 <= i < |bs| ==>
                 back[i] == if bs[i].kind == "paragraph" && bs[i].text.Some?
                            then PlainParagraph(Normalize(bs[i].text.value)) else bs[i]
  {
    forall i | 0 <= i < |bs|
      ensures DowngradeBlock(UpgradeBlock(bs[i])) ==
              if bs[i].kind == "paragraph" && bs[i].text.Some? then PlainParagraph(Normalize(bs[i].text.value)) else bs[i]
    {
      if bs[i].kind == "paragraph" && bs[i].text.Some? {
        DocRoundTrip(bs[i].text.value);
      }
    }
  }

  /** The blocks come back unchanged exactly when no paragraph holds a carriage return. */
  lemma DowngradeIsExactWithoutCR(bs: seq<Block>)
    requires forall i :: 0 <= i < |bs| ==> PlainBlock(bs[i])
    ensures DowngradeBlocks(UpgradeBlocks(bs)) == bs
            <==> forall i :: 0 <= i < |bs| && bs[i].kind == "paragraph" && bs[i].text.Some? ==> '\r' !in bs[i].text.value
  {
    DowngradeUndoesUpgrade(bs);
    var back := DowngradeBlocks(UpgradeBlocks(bs));
    forall i | 0 <= i < |bs| && bs[i].kind == "paragraph" && bs[i].text.Some?
      ensures back[i] == bs[i] <==> '\r' !in bs[i].text.value
    {
      NormalizeIsIdentityWithoutCR(bs[i].text.value);
    }
  }

  // ---- legacyBodyToBlocks and blocksToLegacyBody ----

  /** A block of migration 1767225800000. */
  datatype LegacyBlock = LegacyBlock(
    kind: string, text: Option<string>, caption: Option<string>, url: Option<string>, items: Option<seq<(string, string)>>)

  function LegacyParagraph(text: string): LegacyBlock {
    LegacyBlock("paragraph", Some(text), None, None, None)
  }

  function Visible(parts: seq<string>): seq<string> {
    if parts == [] then []
    else (if IsBlank(parts[0]) then [] else [parts[0]]) + Visible(parts[1..])
  }

  function LegacyBodyToBlocks(body: string): seq<LegacyBlock> {
    var parts := Visible(Split(Normalize(body), BLANK_LINE));
    seq(|parts|, i requires 0 <= i < |parts| => LegacyParagraph(parts[i]))
  }

  function OrEmpty(t: Option<string>): string {
    if t.Some? then t.value else ""
  }

  function LegacyText(b: LegacyBlock): string {
    if b.kind in {"heading", "paragraph", "callout"} then OrEmpty(b.text)
    else if b.kind == "button" then OrEmpty(b.caption) + ": " + OrEmpty(b.url)
    else if b.kind == "keyValueList" then
      var items := if b.items.Some? then b.items.value else [];
      Join(seq(|items|, i requires 0 <= i < |items| => items[i].0 + ": " + items[i].1), "\n")
    else if b.kind == "divider" then "----------"
    else ""
  }

  function NonEmpty(parts: seq<string>): seq<string> {
    if parts == [] then []
    else (if parts[0] == "" then [] else [parts[0]]) + NonEmpty(parts[1..])
  }

  function LegacyTexts(bs: seq<LegacyBlock>): seq<string> {
    seq(|bs|, i requires 0 <= i < |bs| => LegacyText(bs[i]))
  }

  function BlocksToLegacyBody(bs: seq<LegacyBlock>): string {
    Join(NonEmpty(LegacyTexts(bs)), BLANK_LINE)
  }

  /** Dropping blank parts leaves parts: only the last may end in a newline. */
  lemma {:induction false} VisibleGivesParts(parts: seq<string>)
    requires AreParts(parts)
    ensures AreParts(Visible(parts))
    ensures forall i :: 0 <= i < |Visible(parts)| ==> !IsBlank(Visible(parts)[i]) && Visible(parts)[i] in parts
  {
    if parts != [] {
      forall i | 0 <= i < |parts[1..]|
        ensures IsPart(parts[1..][i], i == |parts[1..]| - 1)
      {
        assert IsPart(parts[i + 1], i + 1 == |parts| - 1);
      }
      VisibleGivesParts(parts[1..]);
      assert IsPart(parts[0], 0 == |parts| - 1);
    }
  }

  lemma {:induction false} VisibleKeepsVisible(parts: seq<string>)
    requires forall i :: 0 <= i < |parts| ==> !IsBlank(parts[i])
    ensures Visible(parts) == parts && NonEmpty(parts) == parts
  {
    if parts != [] {
      assert parts[0] != "";
      VisibleKeepsVisible(parts[1..]);
    }
  }

  lemma {:induction false} JoinHasNoCR(parts: seq<string>)
    requires forall i :: 0 <= i < |parts| ==> '\r' !in parts[i]
    ensures '\r' !in Join(parts, BLANK_LINE)
  {
    if |parts| > 1 {
      JoinHasNoCR(parts[1..]);
    }
  }

  /** What legacyBodyToBlocks made, blocksToLegacyBody and legacyBodyToBlocks again give back. */
  lemma LegacyRoundTrip(body: string)
    ensures LegacyBodyToBlocks(BlocksToLegacyBody(LegacyBodyToBlocks(body))) == LegacyBodyToBlocks(body)
  {
    var all := Split(Normalize(body), BLANK_LINE);
    var parts := Visible(all);
    var bs := LegacyBodyToBlocks(body);
    SplitGivesParts(Normalize(body));
    VisibleGivesParts(all);
    VisibleKeepsVisible(parts);
    assert LegacyTexts(bs) == parts;
    var text := Join(parts, BLANK_LINE);
    forall i | 0 <= i < |parts|
      ensures '\r' !in parts[i]
    {
      var j :| 0 <= j < |all| && all[j] == parts[i];
      NormalizeHasNoCR(body);
    }
    JoinHasNoCR(parts);
    NormalizeIsIdentityWithoutCR(text);
    if parts == [] {
      assert Split("", BLANK_LINE) == [""];
      assert Visible([""]) == [];
    } else {
      SplitJoin(parts);
    }
  }

  // ---- What the documents and bodies look like ----

  /** A paragraph of the upgrade: line breaks and pieces of one line, none empty. */
  predicate IsPlainParagraph(p: Node) {
    && p.kind == "paragraph" && p.text.None? && p.marks.None?
    && forall i :: 0 <= i < |Children(p)| ==>
         Children(p)[i] == HARD_BREAK
         || (Children(p)[i] == Text(TextOf(Children(p)[i])) && TextOf(Children(p)[i]) != "" && '\n' !in TextOf(Children(p)[i]))
  }

  lemma {:induction false} LinesHaveNoBreak(t: string)
    ensures forall i :: 0 <= i < |Split(t, "\n")| ==> '\n' !in Split(t, "\n")[i]
    decreases |t|
  {
    var parts := Split(t, "\n");
    if t != "" {
      LinesHaveNoBreak(t[1..]);
      var rest := Split(t[1..], "\n");
      if "\n" <= t {
        assert forall i :: 1 <= i < |parts| ==> parts[i] == rest[i - 1];
      } else {
        assert t[0] != '\n' by {
          assert t[0] == '\n' ==> "\n" <= t;
        }
        assert parts[0] == [t[0]] + rest[0];
        assert forall i :: 1 <= i < |parts| ==> parts[i] == rest[i];
      }
    }
  }

  lemma {:induction false} LineNodesArePlain(lines: seq<string>, index: nat, k: nat)
    requires index <= |lines| && k < |LineNodes(lines, index)|
    requires forall i :: 0 <= i < |lines| ==> '\n' !in lines[i]
    ensures var n := LineNodes(lines, index)[k];
            n == HARD_BREAK || (n == Text(TextOf(n)) && TextOf(n) != "" && '\n' !in TextOf(n))
    decreases |lines| - index
  {
    var first := OneLine(lines[index], index);
    if k >= |first| {
      LineNodesArePlain(lines, index + 1, k - |first|);
    }
  }

  lemma ParagraphIsPlain(part: string)
    ensures IsPlainParagraph(ParagraphOf(part))
  {
    var lines := Split(part, "\n");
    LinesHaveNoBreak(part);
    forall i | 0 <= i < |Children(ParagraphOf(part))|
      ensures var n := Children(ParagraphOf(part))[i];
              n == HARD_BREAK || (n == Text(TextOf(n)) && TextOf(n) != "" && '\n' !in TextOf(n))
    {
      LineNodesArePlain(lines, 0, i);
    }
  }

  /**
   A text becomes a document of paragraphs: none of their texts holds a blank line, only the last may end in a newline,
   and with a blank line between each two they are the text.
   */
  lemma TextIsDividedAtBlankLines(text: string)
    ensures var doc := TextToDoc(text); var ps := Children(doc);
            && doc.kind == "doc" && ps != []
            && (forall i :: 0 <= i < |ps| ==> IsPlainParagraph(ps[i]) && IsPart(ParagraphToText(ps[i]), i == |ps| - 1))
            && Join(ParagraphsToText(ps), BLANK_LINE) == Normalize(text)
  {
    var parts := Split(Normalize(text), BLANK_LINE);
    var ps := Children(TextToDoc(text));
    SplitGivesParts(Normalize(text));
    forall i | 0 <= i < |parts|
      ensures IsPlainParagraph(ps[i]) && ParagraphToText(ps[i]) == parts[i]
    {
      ParagraphIsPlain(parts[i]);
      ParagraphRoundTrip(parts[i]);
    }
    assert ParagraphsToText(ps) == parts;
    JoinSplit(Normalize(text), BLANK_LINE);
  }

  /** A linked piece reads as its text, with the address behind it unless the two are the same. */
  lemma LinkReads(text: string, href: string)
    ensures NodeToText(Node("text", Some(text), Some([Mark("link", Some(href))]), None)) ==
            if href == text then text else text + " (" + href + ")"
    ensures NodeToText(Text(text)) == text
    ensures NodeToText(HARD_BREAK) == "\n"
  {
  }

  /** An item of a list of one-paragraph items reads as its number, from 1 on, or a dash, a space and its text. */
  lemma ListReads(block: Node, texts: seq<string>)
    requires block.kind != "paragraph" && |Children(block)| == |texts|
    requires forall i :: 0 <= i < |texts| ==>
               |Children(Children(block)[i])| == 1 && ParagraphToText(Children(Children(block)[i])[0]) == texts[i]
    ensures block.kind == "orderedList" ==>
              BlockToText(block) == Join(seq(|texts|, i requires 0 <= i < |texts| => Decimal(i + 1) + ". " + texts[i]), "\n")
    ensures block.kind != "orderedList" ==>
              BlockToText(block) == Join(seq(|texts|, i requires 0 <= i < |texts| => "- " + texts[i]), "\n")
  {
    var items := Children(block);
    forall i | 0 <= i < |texts|
      ensures ItemToText(block.kind, items[i], i) == (if block.kind == "orderedList" then Decimal(i + 1) + ". " else "- ") + texts[i]
    {
      assert ParagraphsToText(Children(items[i])) == [texts[i]];
      if block.kind == "orderedList" {
        assert Decimal(i + 1) + "." + " " == Decimal(i + 1) + ". ";
      }
    }
    var lines := seq(|items|, i requires 0 <= i < |items| => ItemToText(block.kind, items[i], i));
    if block.kind == "orderedList" {
      assert lines == seq(|texts|, i requires 0 <= i < |texts| => Decimal(i + 1) + ". " + texts[i]);
    } else {
      assert lines == seq(|texts|, i requires 0 <= i < |texts| => "- " + texts[i]);
    }
  }

  /** A block downgraded is a paragraph with its text, an image one with its description; others stay. */
  lemma DowngradedBlock(b: Block)
    ensures b.kind == "paragraph" && b.content.Some? ==>
              DowngradeBlock(b) == Block("paragraph", Some(DocToText(b.content.value)), None, None, map[])
    ensures b.kind == "image" ==>
              DowngradeBlock(b) == Block("paragraph", Some("[Imagen: " + OrEmpty(b.alt) + "]"), None, None, map[])
    ensures b.kind != "image" && !(b.kind == "paragraph" && b.content.Some?) ==> DowngradeBlock(b) == b
  {
  }

  /** Each block is one part of the body, separated by blank lines; a block without text leaves none. */
  lemma LegacyBodyGrows(bs: seq<LegacyBlock>, b: LegacyBlock)
    ensures var body, part := BlocksToLegacyBody(bs), BlocksToLegacyBody([b]);
            BlocksToLegacyBody([b] + bs) == if part == "" then body else if NoText(bs) then part else part + BLANK_LINE + body
  {
    OneBlockBody(b);
    assert LegacyTexts([b] + bs) == [LegacyText(b)] + LegacyTexts(bs);
    FirstOfNonEmpty(LegacyText(b), LegacyTexts(bs));
    NoTextExactlyWhen(bs);
    var rest := NonEmpty(LegacyTexts(bs));
    if LegacyText(b) == "" {
      assert [] + rest == rest;
    } else {
      assert ([LegacyText(b)] + rest)[1..] == rest;
    }
  }

  lemma FirstOfNonEmpty(part: string, parts: seq<string>)
    ensures NonEmpty([part] + parts) == (if part == "" then [] else [part]) + NonEmpty(parts)
  {
    assert ([part] + parts)[1..] == parts;
  }

  predicate NoText(bs: seq<LegacyBlock>) {
    forall i :: 0 <= i < |bs| ==> LegacyText(bs[i]) == ""
  }

  lemma {:induction false} AllEmpty(parts: seq<string>)
    ensures NonEmpty(parts) == [] <==> forall i :: 0 <= i < |parts| ==> parts[i] == ""
  {
    if parts != [] {
      AllEmpty(parts[1..]);
      assert forall i :: 0 <= i < |parts[1..]| ==> parts[1..][i] == parts[i + 1];
      if NonEmpty(parts) == [] {
        forall i | 0 <= i < |parts|
          ensures parts[i] == ""
        {
          if i > 0 {
            assert parts[1..][i - 1] == "";
          }
        }
      }
    }
  }

  lemma NoTextExactlyWhen(bs: seq<LegacyBlock>)
    ensures NonEmpty(LegacyTexts(bs)) == [] <==> NoText(bs)
  {
    AllEmpty(LegacyTexts(bs));
    assert forall i :: 0 <= i < |bs| ==> LegacyTexts(bs)[i] == LegacyText(bs[i]);
  }

  /** What each kind of block reads as. */
  lemma LegacyBlockReads(text: string, caption: string, url: string, items: seq<(string, string)>)
    ensures BlocksToLegacyBody([LegacyBlock("heading", Some(text), None, None, None)]) == text
    ensures BlocksToLegacyBody([LegacyBlock("callout", Some(text), None, None, None)]) == text
    ensures BlocksToLegacyBody([LegacyBlock("button", None, Some(caption), Some(url), None)]) == caption + ": " + url
    ensures BlocksToLegacyBody([LegacyBlock("divider", None, None, None, None)]) == "----------"
    ensures BlocksToLegacyBody([LegacyBlock("keyValueList", None, None, None, Some(items))]) ==
            Join(seq(|items|, i requires 0 <= i < |items| => items[i].0 + ": " + items[i].1), "\n")
  {
    OneBlockBody(LegacyBlock("heading", Some(text), None, None, None));
    OneBlockBody(LegacyBlock("callout", Some(text), None, None, None));
    OneBlockBody(LegacyBlock("button", None, Some(caption), Some(url), None));
    OneBlockBody(LegacyBlock("divider", None, None, None, None));
    OneBlockBody(LegacyBlock("keyValueList", None, None, None, Some(items)));
  }

  lemma OneBlockBody(b: LegacyBlock)
    ensures BlocksToLegacyBody([b]) == LegacyText(b)
  {
    assert LegacyTexts([b]) == [LegacyText(b)] + [];
    FirstOfNonEmpty(LegacyText(b), []);
  }
}
