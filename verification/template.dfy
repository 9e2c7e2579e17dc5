/** The compiled form of a HAML template (src/blogin/include/haml.h). */
module Template {
  import opened Strings
  import Expression

  /** A run of literal text, or a `#{...}` hole in it. */
  datatype Segment = Literal(text: string) | Hole(value: Expression.Node)

  datatype Attribute = Attribute(name: string, value: seq<Segment>, shorthand: bool)

  datatype ControlKind = If | Elsif | Else | Unless | For

  datatype Content =
    | Root
    | Doctype(declaration: string)
    | Comment(remark: string)
    | Text(parts: seq<Segment>)
    | Output(value: Expression.Node, escaped: bool)
    | Control(control: ControlKind, condition: Option<Expression.Node>, variable: string)
    | Filter(filter: string)
    | Element(tag: string, classes: seq<string>, id: string, attributes: seq<Attribute>,
              selfClosing: bool, keepsWhitespace: bool)

  datatype Node = Node(content: Content, children: seq<Node>, line: nat)
  {
    predicate IsControl() { content.Control? }

    predicate IsHead() { content.Control? && (content.control.If? || content.control.Unless?) }

    predicate IsTail() { content.Control? && (content.control.Elsif? || content.control.Else?) }
  }
}
