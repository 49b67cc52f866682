/** Migration 1767225840000: link variables written as text become link nodes. */
module LinkConversion {
  import opened Options
  import opened Strings
  import opened RichText
  import opened LinkTokens

  const LINK_VARIABLES: map<string, Links> := map[
    "USER_INVITATION" := map["auth.loginUrl" := "Iniciar sesión"],
    "PASSWORD_RESET" := map["auth.resetUrl" := "Restablecer contraseña"],
    "GENERIC_NOTIFICATION" := map["app.loginUrl" := "Abrir Control Interno"],
    "LOAN_STATUS_NOTIFICATION" := map["app.loginUrl" := "Abrir Control Interno"],
    "INVENTORY_ALERT" := map["app.loginUrl" := "Abrir Control Interno"],
    "SIGNATURE_LINK" := map["firma.url" := "Abrir el documento"],
    "IMPORT_FINISHED" := map["app.loginUrl" := "Abrir Control Interno"]]

  // ---- convertText ----

  predicate HasLink(marks: seq<Mark>) {
    exists i :: 0 <= i < |marks| && marks[i].kind == "link"
  }

  function Marked(text: string, marks: seq<Mark>): Node {
    Node("text", Some(text), if |marks| > 0 then Some(marks) else None, None)
  }

  /** push: empty pieces are dropped. */
  function Pushed(text: string, marks: seq<Mark>): seq<Node> {
    if text != "" then [Marked(text, marks)] else []
  }

  function LinkMarks(marks: seq<Mark>, name: string): seq<Mark> {
    if HasLink(marks) then marks else marks + [Mark("link", Some("{{" + name + "}}"))]
  }

  function PieceNodes(p: Piece, marks: seq<Mark>, links: Links): seq<Node> {
    match p
    case Plain(text) => Pushed(text, marks)
    case Link(name, _) => if name in links then Pushed(links[name], LinkMarks(marks, name)) else []
  }

  function PiecesNodes(pieces: seq<Piece>, marks: seq<Mark>, links: Links): seq<Node> {
    if pieces == [] then [] else PieceNodes(pieces[0], marks, links) + PiecesNodes(pieces[1..], marks, links)
  }

  function ConvertedText(node: Node, links: Links): seq<Node> {
    var pieces := Scan(TextOf(node), links, 0, 0);
    if |pieces| == 1 then [node] else PiecesNodes(pieces, Marks(node), links)
  }

  /** One turn of the loop: what a match adds to the nodes. */
  lemma ScanStep(text: string, links: Links, marks: seq<Mark>, last: nat, pos: nat)
    requires last <= pos <= |text| && NextMatch(text, pos).Some?
    ensures var (i, token) := NextMatch(text, pos).value;
            var pieces := Scan(text, links, last, pos);
            if token.name in links then
              && |pieces| > 1
              && PiecesNodes(pieces, marks, links) ==
                 Pushed(text[last..i], marks) + Pushed(links[token.name], LinkMarks(marks, token.name))
                 + PiecesNodes(Scan(text, links, token.end, token.end), marks, links)
            else pieces == Scan(text, links, last, token.end)
  {
    var (i, token) := NextMatch(text, pos).value;
    if token.name in links {
      TwoPieceNodes(Plain(text[last..i]), Link(token.name, text[i..token.end]),
                    Scan(text, links, token.end, token.end), marks, links);
    }
  }

  /** Pushing the front of `rest` moves it to `out`. */
  lemma PushFront(out: seq<Node>, a: seq<Node>, b: seq<Node>, rest: seq<Node>)
    ensures out + (a + b + rest) == (out + a + b) + rest
  {
    ConcatAssociates(out, a + b, rest);
    ConcatAssociates(out, a, b);
  }

  /** convertText: walks the matches, pushing the text before each known token and its link. */
  method ConvertText(node: Node, links: Links) returns (nodes: seq<Node>)
    ensures nodes == ConvertedText(node, links)
  {
    var text, marks := TextOf(node), Marks(node);
    var out: seq<Node> := [];
    var last: nat, pos: nat := 0, 0;
    ghost var all := Scan(text, links, 0, 0);
    ghost var expected, rest := PiecesNodes(all, marks, links), PiecesNodes(all, marks, links);
    var m := NextMatch(text, pos);
    while m.Some?
      invariant last <= pos <= |text| && m == NextMatch(text, pos)
      invariant rest == PiecesNodes(Scan(text, links, last, pos), marks, links) && out + rest == expected
      invariant last == 0 ==> all == Scan(text, links, 0, pos)
      invariant last > 0 ==> |all| > 1
      decreases |text| - pos
    {
      ScanStep(text, links, marks, last, pos);
      var (i, token) := m.value;
      if token.name in links {
        var before, link := Pushed(text[last..i], marks), Pushed(links[token.name], LinkMarks(marks, token.name));
        rest := PiecesNodes(Scan(text, links, token.end, token.end), marks, links);
        PushFront(out, before, link, rest);
        out := out + before + link;
        last := token.end;
      }
      pos := token.end;
      m := NextMatch(text, pos);
    }
    if last == 0 {
      return [node];
    }
    OnePieceNodes(Plain(text[last..]), marks, links);
    return out + Pushed(text[last..], marks);
  }

  lemma OnePieceNodes(p: Piece, marks: seq<Mark>, links: Links)
    ensures PiecesNodes([p], marks, links) == PieceNodes(p, marks, links)
  {
    assert [p][1..] == [];
  }

  lemma TwoPieceNodes(p: Piece, q: Piece, rest: seq<Piece>, marks: seq<Mark>, links: Links)
    ensures PiecesNodes([p, q] + rest, marks, links) ==
            PieceNodes(p, marks, links) + PieceNodes(q, marks, links) + PiecesNodes(rest, marks, links)
  {
    var all := [p, q] + rest;
    assert all[1..] == [q] + rest;
    assert all[1..][1..] == rest;
  }

  // ---- Every known token becomes a link, and nothing else changes ----

  /** Link texts that hold no known token themselves. */
  ghost predicate QuietLinks(links: Links) {
    forall name :: name in links ==> NoKnownToken(links[name], links) && links[name] != ""
  }

  ghost predicate Quiet(n: Node, links: Links) {
    n.kind == "text" ==> NoKnownToken(TextOf(n), links)
  }

  ghost predicate AllQuiet(ns: seq<Node>, links: Links) {
    forall i :: 0 <= i < |ns| ==> Quiet(ns[i], links)
  }

  lemma QuietConcat(a: seq<Node>, b: seq<Node>, links: Links)
    requires AllQuiet(a, links) && AllQuiet(b, links)
    ensures AllQuiet(a + b, links)
  {
  }

  lemma {:induction false} PiecesAreQuiet(pieces: seq<Piece>, marks: seq<Mark>, links: Links)
    requires QuietLinks(links) && Separates(pieces, links)
    ensures AllQuiet(PiecesNodes(pieces, marks, links), links)
  {
    if pieces != [] {
      assert pieces[0] in pieces;
      assert Separates(pieces[1..], links) by {
        assert forall p :: p in pieces[1..] ==> p in pieces;
      }
      PieceIsQuiet(pieces[0], marks, links);
      PiecesAreQuiet(pieces[1..], marks, links);
      QuietConcat(PieceNodes(pieces[0], marks, links), PiecesNodes(pieces[1..], marks, links), links);
    }
  }

  lemma PieceIsQuiet(p: Piece, marks: seq<Mark>, links: Links)
    requires QuietLinks(links) && (p.Plain? ==> NoKnownToken(p.text, links))
    ensures AllQuiet(PieceNodes(p, marks, links), links)
  {
  }

  /** A text node is kept as it is exactly when it holds no known token. */
  lemma ConvertedTextKeeps(node: Node, links: Links)
    ensures |Scan(TextOf(node), links, 0, 0)| == 1 <==> NoKnownToken(TextOf(node), links)
    ensures NoKnownToken(TextOf(node), links) ==> ConvertedText(node, links) == [node]
  {
    OnePieceExactlyWhen(TextOf(node), links, 0, 0);
    ClearMeansNoKnownToken(TextOf(node), links);
  }

  lemma ConvertedTextIsQuiet(node: Node, links: Links)
    requires QuietLinks(links)
    ensures AllQuiet(ConvertedText(node, links), links)
  {
    ConvertedTextKeeps(node, links);
    ScanSeparates(TextOf(node), links, 0, 0);
    PiecesAreQuiet(Scan(TextOf(node), links, 0, 0), Marks(node), links);
  }

  // ---- Reading the original text back ----

  /** A link node read as its href, any other as its text. */
  function Unlinked(n: Node): string {
    if LinkHref(Marks(n)).Some? then LinkHref(Marks(n)).value else TextOf(n)
  }

  function UnlinkedAll(ns: seq<Node>): string {
    if ns == [] then "" else Unlinked(ns[0]) + UnlinkedAll(ns[1..])
  }

  lemma {:induction false} UnlinkedConcat(a: seq<Node>, b: seq<Node>)
    ensures UnlinkedAll(a + b) == UnlinkedAll(a) + UnlinkedAll(b)
  {
    if a == [] {
      assert a + b == b;
    } else {
      UnlinkedConcat(a[1..], b);
      assert (a + b)[0] == a[0] && (a + b)[1..] == a[1..] + b;
      ConcatAssociates(Unlinked(a[0]), UnlinkedAll(a[1..]), UnlinkedAll(b));
    }
  }

  lemma {:induction false} AddedLinkIsFirst(marks: seq<Mark>, href: string)
    requires !HasLink(marks)
    ensures LinkHref(marks + [Mark("link", Some(href))]) == Some(href) && LinkHref(marks) == None
  {
    if marks == [] {
      assert (marks + [Mark("link", Some(href))])[0] == Mark("link", Some(href));
    } else {
      assert marks[0].kind != "link";
      forall i | 0 <= i < |marks[1..]|
        ensures marks[1..][i].kind != "link"
      {
        assert marks[i + 1].kind != "link";
      }
      AddedLinkIsFirst(marks[1..], href);
      assert (marks + [Mark("link", Some(href))])[1..] == marks[1..] + [Mark("link", Some(href))];
    }
  }

  lemma PieceUnlinks(p: Piece, marks: seq<Mark>, links: Links)
    requires !HasLink(marks) && QuietLinks(links) && (p.Link? ==> p.name in links)
    ensures UnlinkedAll(PieceNodes(p, marks, links)) == if p.Plain? then p.text else "{{" + p.name + "}}"
  {
    var ns := PieceNodes(p, marks, links);
    AddedLinkIsFirst(marks, if p.Link? then "{{" + p.name + "}}" else "");
    if ns != [] {
      assert ns[1..] == [];
    }
  }

  lemma {:induction false} PiecesUnlink(pieces: seq<Piece>, marks: seq<Mark>, links: Links)
    requires !HasLink(marks) && QuietLinks(links) && Separates(pieces, links)
    ensures UnlinkedAll(PiecesNodes(pieces, marks, links)) == TightText(pieces)
  {
    if pieces != [] {
      assert pieces[0] in pieces;
      PieceUnlinks(pieces[0], marks, links);
      assert Separates(pieces[1..], links) by {
        assert forall p :: p in pieces[1..] ==> p in pieces;
      }
      PiecesUnlink(pieces[1..], marks, links);
      UnlinkedConcat(PieceNodes(pieces[0], marks, links), PiecesNodes(pieces[1..], marks, links));
    }
  }

  /** `tight` is `text` with the white space inside known tokens removed, and nothing else. */
  ghost predicate SameButTight(text: string, tight: string, links: Links) {
    exists pieces :: RawText(pieces) == text && TightText(pieces) == tight && Separates(pieces, links)
  }

  /** From the converted nodes the text can be read back, up to white space inside the braces. */
  lemma ConversionIsReadable(node: Node, links: Links)
    requires !HasLink(Marks(node)) && QuietLinks(links)
    ensures SameButTight(TextOf(node), UnlinkedAll(ConvertedText(node, links)), links)
  {
    var text := TextOf(node);
    var pieces := Scan(text, links, 0, 0);
    ScanSeparates(text, links, 0, 0);
    assert text[0..] == text;
    if |pieces| == 1 {
      // Nothing converted: the node reads as its text.
      ConvertedTextKeeps(node, links);
      AddedLinkIsFirst(Marks(node), "");
      assert UnlinkedAll([node]) == text by {
        assert [node][1..] == [];
      }
      SinglePiece(Plain(text));
      assert Separates([Plain(text)], links);
      assert RawText([Plain(text)]) == text && TightText([Plain(text)]) == text;
    } else {
      PiecesUnlink(pieces, Marks(node), links);
    }
  }

  // ---- Documents and designs ----

  function ConvertNode(n: Node, links: Links): seq<Node> {
    if n.kind == "text" then ConvertedText(n, links) else [n]
  }

  /** content.flatMap(...). */
  function ConvertNodes(ns: seq<Node>, links: Links): seq<Node> {
    if ns == [] then [] else ConvertNode(ns[0], links) + ConvertNodes(ns[1..], links)
  }

  function ConvertParagraph(p: Node, links: Links): Node {
    if p.content.None? then p else p.(content := Some(ConvertNodes(p.content.value, links)))
  }

  function ConvertItem(item: Node, links: Links): Node {
    var children := Children(item);
    item.(content := Some(seq(|children|, i requires 0 <= i < |children| => ConvertParagraph(children[i], links))))
  }

  function ConvertDocBlock(block: Node, links: Links): Node {
    if block.kind == "paragraph" then ConvertParagraph(block, links)
    else
      var items := Children(block);
      block.(content := Some(seq(|items|, i requires 0 <= i < |items| => ConvertItem(items[i], links))))
  }

  function ConvertDoc(doc: Node, links: Links): Node {
    var blocks := Children(doc);
    doc.(content := Some(seq(|blocks|, i requires 0 <= i < |blocks| => ConvertDocBlock(blocks[i], links))))
  }

  function ConvertBlock(b: Block, links: Links): Block {
    if b.kind == "paragraph" && b.content.Some? then b.(content := Some(ConvertDoc(b.content.value, links))) else b
  }

  function ConvertBlocks(bs: seq<Block>, links: Links): seq<Block> {
    seq(|bs|, i requires 0 <= i < |bs| => ConvertBlock(bs[i], links))
  }

  /** convertLinkVariables: null for a type without link variables and when nothing changes. */
  function ConvertLinkVariables(variables: map<string, Links>, templateType: string, bs: seq<Block>): Option<seq<Block>> {
    if templateType !in variables then None
    else
      var next := ConvertBlocks(bs, variables[templateType]);
      if next == bs then None else Some(next)
  }

  // ---- Converting twice ----

  lemma {:induction false} QuietNodesStay(ns: seq<Node>, links: Links)
    requires AllQuiet(ns, links)
    ensures ConvertNodes(ns, links) == ns
  {
    if ns != [] {
      assert Quiet(ns[0], links);
      ConvertedTextKeeps(ns[0], links);
      assert AllQuiet(ns[1..], links) by {
        assert forall i :: 0 <= i < |ns[1..]| ==> ns[1..][i] == ns[i + 1];
      }
      QuietNodesStay(ns[1..], links);
    }
  }

  lemma ConvertedNodeIsQuiet(n: Node, links: Links)
    requires QuietLinks(links)
    ensures AllQuiet(ConvertNode(n, links), links)
  {
    ConvertedTextIsQuiet(n, links);
  }

  lemma {:induction false} ConvertedNodesAreQuiet(ns: seq<Node>, links: Links)
    requires QuietLinks(links)
    ensures AllQuiet(ConvertNodes(ns, links), links)
  {
    if ns != [] {
      ConvertedNodeIsQuiet(ns[0], links);
      ConvertedNodesAreQuiet(ns[1..], links);
      QuietConcat(ConvertNode(ns[0], links), ConvertNodes(ns[1..], links), links);
    }
  }

  lemma ParagraphTwice(p: Node, links: Links)
    requires QuietLinks(links)
    ensures ConvertParagraph(ConvertParagraph(p, links), links) == ConvertParagraph(p, links)
  {
    if p.content.Some? {
      ConvertedNodesAreQuiet(p.content.value, links);
      QuietNodesStay(ConvertNodes(p.content.value, links), links);
    }
  }

  lemma ItemTwice(item: Node, links: Links)
    requires QuietLinks(links)
    ensures ConvertItem(ConvertItem(item, links), links) == ConvertItem(item, links)
  {
    var children, once := Children(item), Children(ConvertItem(item, links));
    forall i | 0 <= i < |children|
      ensures ConvertParagraph(once[i], links) == once[i]
    {
      ParagraphTwice(children[i], links);
    }
    assert Children(ConvertItem(ConvertItem(item, links), links)) == once;
  }

  lemma DocBlockTwice(block: Node, links: Links)
    requires QuietLinks(links)
    ensures ConvertDocBlock(ConvertDocBlock(block, links), links) == ConvertDocBlock(block, links)
  {
    if block.kind == "paragraph" {
      ParagraphTwice(block, links);
    } else {
      var items, once := Children(block), Children(ConvertDocBlock(block, links));
      forall i | 0 <= i < |items|
        ensures ConvertItem(once[i], links) == once[i]
      {
        ItemTwice(items[i], links);
      }
      assert Children(ConvertDocBlock(ConvertDocBlock(block, links), links)) == once;
    }
  }

  lemma DocTwice(doc: Node, links: Links)
    requires QuietLinks(links)
    ensures ConvertDoc(ConvertDoc(doc, links), links) == ConvertDoc(doc, links)
  {
    var blocks, once := Children(doc), Children(ConvertDoc(doc, links));
    forall i | 0 <= i < |blocks|
      ensures ConvertDocBlock(once[i], links) == once[i]
    {
      DocBlockTwice(blocks[i], links);
    }
    assert Children(ConvertDoc(ConvertDoc(doc, links), links)) == once;
  }

  lemma BlocksTwice(bs: seq<Block>, links: Links)
    requires QuietLinks(links)
    ensures ConvertBlocks(ConvertBlocks(bs, links), links) == ConvertBlocks(bs, links)
  {
    forall i | 0 <= i < |bs|
      ensures ConvertBlock(ConvertBlock(bs[i], links), links) == ConvertBlock(bs[i], links)
    {
      if bs[i].kind == "paragraph" && bs[i].content.Some? {
        DocTwice(bs[i].content.value, links);
      }
    }
  }

  /** The link texts of every template type are free of tokens. */
  ghost predicate QuietVariables(variables: map<string, Links>) {
    forall t :: t in variables ==> QuietLinks(variables[t])
  }

  /** A conversion that changed something leaves nothing for a second one. */
  lemma SecondConversionIsNull(variables: map<string, Links>, templateType: string, bs: seq<Block>)
    requires QuietVariables(variables)
    requires ConvertLinkVariables(variables, templateType, bs).Some?
    ensures ConvertLinkVariables(variables, templateType, ConvertLinkVariables(variables, templateType, bs).value) == None
  {
    BlocksTwice(bs, variables[templateType]);
  }

  // ---- Completeness ----

  /** The paragraphs convertLinkVariables reaches inside a document. */
  ghost predicate InDoc(doc: Node, p: Node) {
    || (exists i :: 0 <= i < |Children(doc)| && Children(doc)[i].kind == "paragraph" && p == Children(doc)[i])
    || (exists i, j, k ::
          && 0 <= i < |Children(doc)| && Children(doc)[i].kind != "paragraph"
          && 0 <= j < |Children(Children(doc)[i])|
          && 0 <= k < |Children(Children(Children(doc)[i])[j])|
          && p == Children(Children(Children(doc)[i])[j])[k])
  }

  lemma ParagraphIsQuiet(p: Node, links: Links)
    requires QuietLinks(links)
    ensures AllQuiet(Children(ConvertParagraph(p, links)), links)
  {
    ConvertedNodesAreQuiet(Children(p), links);
  }

  lemma ItemIsQuiet(block: Node, links: Links, j: nat, k: nat)
    requires QuietLinks(links) && block.kind != "paragraph"
    requires j < |Children(ConvertDocBlock(block, links))| && k < |Children(Children(ConvertDocBlock(block, links))[j])|
    ensures AllQuiet(Children(Children(Children(ConvertDocBlock(block, links))[j])[k]), links)
  {
    var item := Children(block)[j];
    assert Children(ConvertDocBlock(block, links))[j] == ConvertItem(item, links);
    ParagraphIsQuiet(Children(item)[k], links);
  }

  lemma DocBlockStays(doc: Node, links: Links, i: nat)
    requires i < |Children(ConvertDoc(doc, links))|
    ensures |Children(doc)| == |Children(ConvertDoc(doc, links))|
    ensures Children(ConvertDoc(doc, links))[i] == ConvertDocBlock(Children(doc)[i], links)
    ensures Children(ConvertDoc(doc, links))[i].kind == Children(doc)[i].kind
  {
  }

  /** After the conversion no paragraph or list item of a document holds a known token as text. */
  lemma NoTokenLeft(doc: Node, links: Links, p: Node)
    requires QuietLinks(links) && InDoc(ConvertDoc(doc, links), p)
    ensures AllQuiet(Children(p), links)
  {
    var blocks := Children(ConvertDoc(doc, links));
    if i :| 0 <= i < |blocks| && blocks[i].kind == "paragraph" && p == blocks[i] {
      DocBlockStays(doc, links, i);
      ParagraphIsQuiet(Children(doc)[i], links);
    } else {
      var i, j, k :|
        && 0 <= i < |blocks| && blocks[i].kind != "paragraph"
        && 0 <= j < |Children(blocks[i])| && 0 <= k < |Children(Children(blocks[i])[j])|
        && p == Children(Children(blocks[i])[j])[k];
      DocBlockStays(doc, links, i);
      ItemIsQuiet(Children(doc)[i], links, j, k);
    }
  }

  // ---- The table of link variables ----

  lemma TextWithoutBraceIsQuiet(t: string, links: Links)
    requires '{' !in t
    ensures NoKnownToken(t, links)
  {
  }

  lemma OneVariableIsQuiet(name: string, text: string)
    requires text != "" && '{' !in text
    ensures QuietLinks(map[name := text])
  {
    TextWithoutBraceIsQuiet(text, map[name := text]);
  }

  lemma LinkVariablesAreQuiet()
    ensures QuietVariables(LINK_VARIABLES)
  {
    OneVariableIsQuiet("auth.loginUrl", "Iniciar sesión");
    OneVariableIsQuiet("auth.resetUrl", "Restablecer contraseña");
    OneVariableIsQuiet("app.loginUrl", "Abrir Control Interno");
    OneVariableIsQuiet("firma.url", "Abrir el documento");
    forall t | t in LINK_VARIABLES
      ensures QuietLinks(LINK_VARIABLES[t])
    {
      assert LINK_VARIABLES[t] in {map["auth.loginUrl" := "Iniciar sesión"], map["auth.resetUrl" := "Restablecer contraseña"],
                                   map["app.loginUrl" := "Abrir Control Interno"], map["firma.url" := "Abrir el documento"]};
    }
  }

  /** So for the migration's own table of variables: what it converted once it never converts again. */
  lemma MigrationConvertsOnce(templateType: string, bs: seq<Block>)
    requires ConvertLinkVariables(LINK_VARIABLES, templateType, bs).Some?
    ensures ConvertLinkVariables(LINK_VARIABLES, templateType, ConvertLinkVariables(LINK_VARIABLES, templateType, bs).value) == None
  {
    LinkVariablesAreQuiet();
    SecondConversionIsNull(LINK_VARIABLES, templateType, bs);
  }

  /** A design of one paragraph. */
  function OneParagraph(text: string): seq<Block> {
    [Block("paragraph", None, Some(DocOf(text)), None, map[])]
  }

  function DocOf(text: string): Node {
    Node("doc", None, None, Some([Node("paragraph", None, None, Some([Text(text)]))]))
  }

  /** A paragraph that is one known token is converted. */
  lemma TokenIsConverted(variables: map<string, Links>, templateType: string, name: string)
    requires QuietVariables(variables) && templateType in variables && name in variables[templateType]
    requires name != "" && forall k :: 0 <= k < |name| ==> IsNameChar(name[k])
    ensures ConvertLinkVariables(variables, templateType, OneParagraph("{{" + name + "}}")).Some?
  {
    var text, links := "{{" + name + "}}", variables[templateType];
    var doc, bs := DocOf(text), OneParagraph(text);
    assert TokenParts(text, "", name, "");
    assert text[0..|text|] == text;
    TokenIsMatched(text, 0, |text|, name);
    assert !NoKnownToken(text, links);
    assert Children(Children(doc)[0])[0] == Text(text);
    assert !AllQuiet(Children(Children(doc)[0]), links);
    if ConvertBlocks(bs, links) == bs {
      assert ConvertBlock(bs[0], links) == bs[0];
      assert InDoc(ConvertDoc(doc, links), Children(doc)[0]);
      NoTokenLeft(doc, links, Children(doc)[0]);
    }
  }

  // ---- The shape of a converted document ----

  function Flattened(runs: seq<seq<Node>>): seq<Node> {
    if runs == [] then [] else runs[0] + Flattened(runs[1..])
  }

  /** What a node of a paragraph became: itself, or pieces that read as its text with tighter tokens. */
  ghost predicate Became(n: Node, run: seq<Node>, links: Links) {
    if n.kind != "text" then run == [n]
    else
      && (NoKnownToken(TextOf(n), links) ==> run == [n])
      && (!HasLink(Marks(n)) ==> SameButTight(TextOf(n), UnlinkedAll(run), links))
  }

  /** A paragraph keeps its nodes in order, each in place as itself or as what it was divided into. */
  lemma {:induction false} NodesStayInPlace(ns: seq<Node>, links: Links) returns (runs: seq<seq<Node>>)
    requires QuietLinks(links)
    ensures |runs| == |ns| && Flattened(runs) == ConvertNodes(ns, links)
    ensures forall i :: 0 <= i < |ns| ==> Became(ns[i], runs[i], links)
  {
    if ns == [] {
      runs := [];
    } else {
      var rest := NodesStayInPlace(ns[1..], links);
      runs := [ConvertNode(ns[0], links)] + rest;
      assert runs[1..] == rest;
      if ns[0].kind == "text" {
        ConvertedTextKeeps(ns[0], links);
        if !HasLink(Marks(ns[0])) {
          ConversionIsReadable(ns[0], links);
        }
      }
      forall i | 0 <= i < |ns|
        ensures Became(ns[i], runs[i], links)
      {
        if i > 0 {
          assert ns[1..][i - 1] == ns[i] && rest[i - 1] == runs[i];
        }
      }
    }
  }

  /** The same paragraph but for its nodes. */
  predicate SameFrame(a: Node, b: Node) {
    a.kind == b.kind && a.text == b.text && a.marks == b.marks
  }

  lemma ParagraphKeepsPlace(p: Node, links: Links) returns (runs: seq<seq<Node>>)
    requires QuietLinks(links)
    ensures var q := ConvertParagraph(p, links);
            && SameFrame(p, q) && (p.content.None? <==> q.content.None?)
            && |runs| == |Children(p)| && Flattened(runs) == Children(q)
            && forall i :: 0 <= i < |runs| ==> Became(Children(p)[i], runs[i], links)
  {
    runs := NodesStayInPlace(Children(p), links);
  }

  /** Blocks, items and paragraphs keep number, order and kind; a paragraph becomes the converted one in its place. */
  lemma DocumentKeepsShape(doc: Node, links: Links)
    ensures var blocks, after := Children(doc), Children(ConvertDoc(doc, links));
            && SameFrame(doc, ConvertDoc(doc, links)) && |after| == |blocks|
            && forall i :: 0 <= i < |blocks| ==>
                 && SameFrame(blocks[i], after[i])
                 && (blocks[i].kind == "paragraph" ==> after[i] == ConvertParagraph(blocks[i], links))
                 && (blocks[i].kind != "paragraph" ==> ListKeepsShape(blocks[i], after[i], links))
  {
  }

  predicate ListKeepsShape(list: Node, after: Node, links: Links) {
    && |Children(after)| == |Children(list)|
    && forall j :: 0 <= j < |Children(list)| ==> ItemKeepsShape(Children(list)[j], Children(after)[j], links)
  }

  predicate ItemKeepsShape(item: Node, after: Node, links: Links) {
    && SameFrame(item, after) && |Children(after)| == |Children(item)|
    && forall k :: 0 <= k < |Children(item)| ==> Children(after)[k] == ConvertParagraph(Children(item)[k], links)
  }

  /** A design keeps its blocks in order; only paragraphs that hold a document change, and in their document only. */
  lemma DesignKeepsShape(bs: seq<Block>, links: Links, i: nat)
    requires i < |bs|
    ensures |ConvertBlocks(bs, links)| == |bs|
    ensures var b, after := bs[i], ConvertBlocks(bs, links)[i];
            if b.kind == "paragraph" && b.content.Some? then after == b.(content := Some(ConvertDoc(b.content.value, links)))
            else after == b
  {
  }

  /** The result is None exactly when the type has no links or no block changes, and else all blocks converted. */
  lemma NullExactlyWhen(variables: map<string, Links>, templateType: string, bs: seq<Block>)
    ensures ConvertLinkVariables(variables, templateType, bs).None? <==>
            templateType !in variables
            || forall i :: 0 <= i < |bs| ==> ConvertBlocks(bs, variables[templateType])[i] == bs[i]
    ensures ConvertLinkVariables(variables, templateType, bs).Some? ==>
              ConvertLinkVariables(variables, templateType, bs).value == ConvertBlocks(bs, variables[templateType])
  {
  }

  /** An unlinked token becomes its link text, linked to the token alone; one inside a link takes the link's marks. */
  lemma TokenBecomesLink(name: string, links: Links, marks: seq<Mark>)
    requires name in links && links[name] != ""
    ensures var ns := PieceNodes(Link(name, ""), marks, links);
            && |ns| == 1 && ns[0].kind == "text" && ns[0].text == Some(links[name]) && ns[0].content.None?
            && ns[0].marks == Some(if exists i :: 0 <= i < |marks| && marks[i].kind == "link" then marks
                                   else marks + [Mark("link", Some("{{" + name + "}}"))])
  {
    assert HasLink(marks) ==> marks != [];
  }

  /** Text between tokens keeps its marks; no empty node is made. */
  lemma TextKeepsMarks(text: string, links: Links, marks: seq<Mark>)
    ensures PieceNodes(Plain(text), marks, links) ==
            if text == "" then [] else [Node("text", Some(text), if marks == [] then None else Some(marks), None)]
  {
  }
}
