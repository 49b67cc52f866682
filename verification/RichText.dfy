/** Stored e-mail designs: rich-text documents and the blocks that hold them. */
module RichText {
  import opened Options

  datatype Mark = Mark(kind: string, href: Option<string>)

  /** A node of a rich-text document; absent JSON fields are None. */
  datatype Node = Node(kind: string, text: Option<string>, marks: Option<seq<Mark>>, content: Option<seq<Node>>)

  /** `text`, `content` and `alt` as the migrations see them (a field of another JSON type reads as None); `rest` holds the other fields. */
  datatype Block = Block(kind: string, text: Option<string>, content: Option<Node>, alt: Option<string>, rest: map<string, string>)

  const HARD_BREAK := Node("hardBreak", None, None, None)

  function Text(t: string): Node {
    Node("text", Some(t), None, None)
  }

  function Children(n: Node): seq<Node> {
    if n.content.Some? then n.content.value else []
  }

  function Marks(n: Node): seq<Mark> {
    if n.marks.Some? then n.marks.value else []
  }

  function TextOf(n: Node): string {
    if n.text.Some? then n.text.value else ""
  }

  /** href of the first link mark. */
  function LinkHref(marks: seq<Mark>): Option<string> {
    if marks == [] then None
    else if marks[0].kind == "link" then marks[0].href
    else LinkHref(marks[1..])
  }
}
