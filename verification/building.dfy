/** What one line of a template is (src/blogin/haml.cpp, build): its kind is told by the
    characters it begins with. */
module Building {
  import opened Strings
  import opened Template
  import opened Compiling
  import opened Interpolation
  import opened Preserved
  import opened Attributes
  import Expression

  function Leaf(content: Content, number: nat): Node { Node(content, [], number) }

  function DropBackslash(s: string): string { if "\\" <= s then s[1..] else s }

  function TextNode(content: string, number: nat): Compiled<Node> {
    match Interpolated(content)
    case Bad(error) => Bad(error)
    case Good(parts) => Good(Leaf(Text(parts), number))
  }

  function OutputNode(source: string, escaped: bool, number: nat): Compiled<Node> {
    match ExpressionOf(source)
    case Bad(error) => Bad(error)
    case Good(value) => Good(Leaf(Output(value, escaped), number))
  }

  // ------------------------------------------------------------- control lines

  function KindOf(keyword: string): Option<ControlKind> {
    match keyword
    case "if" => Some(If)
    case "elsif" => Some(Elsif)
    case "else" => Some(Else)
    case "unless" => Some(Unless)
    case "for" => Some(For)
    case _ => None
  }

  function NotBlank(): char -> bool { c => !IsBlank(c) }

  function DropDollar(s: string): string { if "$" <= s then s[1..] else s }

  function ControlNode(source: string, number: nat): Compiled<Node> {
    var end := RunEnd(source, 0, NotBlank());
    var kind := KindOf(source[..end]);
    var rest := Trim(source[end..]);
    if kind.None? then Bad(UnknownControl)
    else if kind.value.Else? then Good(Leaf(Control(Else, None, ""), number))
    else if kind.value.For? then LoopNode(rest, number)
    else
      match ExpressionOf(rest)
      case Bad(error) => Bad(error)
      case Good(value) => Good(Leaf(Control(kind.value, Some(value), ""), number))
  }

  /** `items -> $name` */
  function LoopNode(rest: string, number: nat): Compiled<Node> {
    var arrow := FindText(rest, "->", 0);
    if arrow.None? then Bad(NoArrow)
    else
      var variable := DropDollar(Trim(rest[arrow.value + 2..]));
      if variable == "" then Bad(NoLoopName)
      else
        match ExpressionOf(Trim(rest[..arrow.value]))
        case Bad(error) => Bad(error)
        case Good(value) => Good(Leaf(Control(For, Some(value), variable), number))
  }

  method BuildControl(source: string, number: nat) returns (r: Compiled<Node>)
    ensures r == ControlNode(source, number)
  {
    hide Trim, FindText, RunEnd;
    var end := Scan(source, 0, NotBlank());
    var keyword, rest := source[..end], Trim(source[end..]);
    var kind: ControlKind;
    if keyword == "if" {
      kind := If;
    } else if keyword == "elsif" {
      kind := Elsif;
    } else if keyword == "else" {
      return Good(Leaf(Control(Else, None, ""), number));
    } else if keyword == "unless" {
      kind := Unless;
    } else if keyword == "for" {
      var arrow := FindFirst(rest, "->");
      if arrow.None? { return Bad(NoArrow); }
      var variable := DropDollar(Trim(rest[arrow.value + 2..]));
      if variable == "" { return Bad(NoLoopName); }
      var items := ReadExpression(Trim(rest[..arrow.value]));
      if items.Bad? { return Bad(items.error); }
      return Good(Leaf(Control(For, Some(items.value), variable), number));
    } else {
      return Bad(UnknownControl);
    }
    var condition := ReadExpression(rest);
    return if condition.Bad? then Bad(condition.error) else Good(Leaf(Control(kind, Some(condition.value), ""), number));
  }

  // ------------------------------------------------------------- elements

  predicate IsTagCharacter(c: char) { IsNameCharacter(c) || c == ':' }

  /** The classes and the id written after a tag, and the index after them. */
  datatype Shorthand = Shorthand(classes: seq<string>, id: string, next: nat)

  function ShorthandFrom(content: string, index: nat, classes: seq<string>, id: string): (r: Compiled<Shorthand>)
    requires index <= |content|
    ensures r.Good? ==> index <= r.value.next <= |content|
    ensures r.Good? && index < |content| && (content[index] == '.' || content[index] == '#') ==> index < r.value.next
    decreases |content| - index
  {
    if index < |content| && (content[index] == '.' || content[index] == '#') then
      var end := RunEnd(content, index + 1, IsNameCharacter);
      var name := content[index + 1..end];
      if name == "" then Bad(NoNameAfterMark)
      else if content[index] == '.' then ShorthandFrom(content, end, classes + [name], id)
      else ShorthandFrom(content, end, classes, name)
    else Good(Shorthand(classes, id, index))
  }

  method ScanShorthand(content: string, start: nat) returns (r: Compiled<Shorthand>)
    requires start <= |content|
    ensures r == ShorthandFrom(content, start, [], "")
  {
    var classes: seq<string>, id := [], "";
    var index := start;
    while index < |content| && (content[index] == '.' || content[index] == '#')
      invariant start <= index <= |content|
      invariant ShorthandFrom(content, index, classes, id) == ShorthandFrom(content, start, [], "")
    {
      var kind := content[index];
      var end := Scan(content, index + 1, IsNameCharacter);
      var name := content[index + 1..end];
      if name == "" { return Bad(NoNameAfterMark); }
      if kind == '.' {
        classes := classes + [name];
      } else {
        id := name;
      }
      index := end;
    }
    return Good(Shorthand(classes, id, index));
  }

  /** The attribute list at `index`, if one begins there, and the index after it. */
  function ListAt(content: string, index: nat): (r: Compiled<(seq<Attribute>, nat)>)
    requires index <= |content|
    ensures r.Good? ==> index <= r.value.1 <= |content|
  {
    if index == |content| || (content[index] != '{' && content[index] != '(') then Good(([], index))
    else
      var end := ListEnd(content, index, (content[index], if content[index] == '{' then '}' else ')'), 0, None);
      if end == |content| then Bad(UnterminatedAttributes)
      else
        match AttributesFrom(content[index + 1..end], 0, "")
        case Bad(error) => Bad(error)
        case Good(attributes) => Good((attributes, end + 1))
  }

  method ParseAttributes(content: string, index: nat) returns (r: Compiled<(seq<Attribute>, nat)>)
    requires index <= |content|
    ensures r == ListAt(content, index)
  {
    if index == |content| || (content[index] != '{' && content[index] != '(') { return Good(([], index)); }
    var closer := if content[index] == '{' then '}' else ')';
    var scan := ScanList(content, index, content[index], closer);
    if scan >= |content| { return Bad(UnterminatedAttributes); }
    var attributes := ParseAttributeBody(content[index + 1..scan], "");
    return if attributes.Bad? then Bad(attributes.error) else Good((attributes.value, scan + 1));
  }

  /** An element's own part of its line. */
  datatype Head = Head(element: Content, next: nat)

  function TagEnd(content: string): (end: nat)
    requires content != ""
    ensures end <= |content| && (content[0] == '%' ==> 0 < end) && (content[0] != '%' ==> end == 0)
  {
    if content[0] == '%' then RunEnd(content, 1, IsTagCharacter) else 0
  }

  /** An element whose list, if it has one, ends at `index`. */
  function HeadFrom(content: string, tag: string, short: Shorthand, attributes: seq<Attribute>, index: nat): Head
    requires index <= |content|
  {
    var closed := index < |content| && content[index] == '/';
    Head(Element(tag, short.classes, short.id, attributes, closed, false), if closed then index + 1 else index)
  }

  function HeadOf(content: string): (r: Compiled<Head>)
    requires content != "" && content[0] in "%.#"
    ensures r.Good? ==> 0 < r.value.next <= |content| && r.value.element.Element?
  {
    var end := TagEnd(content);
    match ShorthandFrom(content, end, [], "")
    case Bad(error) => Bad(error)
    case Good(short) =>
      match ListAt(content, short.next)
      case Bad(error) => Bad(error)
      case Good(given) =>
        Good(HeadFrom(content, if content[0] == '%' then content[1..end] else "div", short, given.0, given.1))
  }

  predicate StartsOutput(s: string) { "!=" <= s || "=" <= s }

  function ElementNode(content: string, number: nat): Compiled<Node>
    requires content != "" && content[0] in "%.#"
    decreases |content|, 0
  {
    match HeadOf(content)
    case Bad(error) => Bad(error)
    case Good(head) =>
      var rest := Trim(content[head.next..]);
      if rest == "" then Good(Leaf(head.element, number))
      else
        match if StartsOutput(rest) then NodeOf(rest, number) else TextNode(DropBackslash(rest), number)
        case Bad(error) => Bad(error)
        case Good(child) => Good(Node(head.element, [child], number))
  }

  /** The node a line gives, before the lines under it are read. */
  function NodeOf(content: string, number: nat): Compiled<Node>
    decreases |content|, 1
  {
    if "!!!" <= content then Good(Leaf(Doctype(Trim(content[3..])), number))
    else if "-#" <= content || "/" <= content then
      Good(Leaf(Comment(Trim(content[if content[0] == '/' then 1 else 2..])), number))
    else if |content| > 1 && content[0] == ':' && IsNameCharacter(content[1]) then
      Good(Leaf(Filter(Trim(content[1..])), number))
    else if "-" <= content then ControlNode(Trim(content[1..]), number)
    else if StartsOutput(content) then
      var escaped := content[0] == '=';
      OutputNode(Trim(content[if escaped then 1 else 2..]), escaped, number)
    else if content != "" && content[0] in "%.#" then ElementNode(content, number)
    else TextNode(DropBackslash(content), number)
  }

  method BuildText(content: string, number: nat) returns (r: Compiled<Node>)
    ensures r == TextNode(content, number)
  {
    var parsed := ParseInterpolated(content);
    return if parsed.Bad? then Bad(parsed.error) else Good(Leaf(Text(parsed.value), number));
  }

  method BuildOutput(source: string, escaped: bool, number: nat) returns (r: Compiled<Node>)
    ensures r == OutputNode(source, escaped, number)
  {
    var parsed := ReadExpression(source);
    return if parsed.Bad? then Bad(parsed.error) else Good(Leaf(Output(parsed.value, escaped), number));
  }

  method BuildElement(content: string, number: nat) returns (r: Compiled<Node>)
    requires content != "" && content[0] in "%.#"
    ensures r == ElementNode(content, number)
    decreases |content|, 0
  {
    hide Trim, ShorthandFrom, ListAt, RunEnd, Interpolated, NodeOf;
    var tag, index := "div", 0;
    if content[0] == '%' {
      index := Scan(content, 1, IsTagCharacter);
      tag := content[1..index];
    }
    var short := ScanShorthand(content, index);
    if short.Bad? { return Bad(short.error); }
    var given := ParseAttributes(content, short.value.next);
    if given.Bad? { return Bad(given.error); }
    index := given.value.1;
    var selfClosing := false;
    if index < |content| && content[index] == '/' {
      selfClosing := true;
      index := index + 1;
    }
    var element := Element(tag, short.value.classes, short.value.id, given.value.0, selfClosing, false);
    assert HeadOf(content) == Good(Head(element, index));
    var rest := Trim(content[index..]);
    if rest == "" { return Good(Leaf(element, number)); }
    var child: Compiled<Node>;
    if StartsOutput(rest) {
      child := Build(rest, number);
    } else {
      child := BuildText(DropBackslash(rest), number);
    }
    return if child.Bad? then child else Good(Node(element, [child.value], number));
  }

  method Build(content: string, number: nat) returns (r: Compiled<Node>)
    ensures r == NodeOf(content, number)
    decreases |content|, 1
  {
    hide Trim, ElementNode, TextNode, OutputNode, ControlNode;
    if "!!!" <= content { return Good(Leaf(Doctype(Trim(content[3..])), number)); }
    if "-#" <= content || "/" <= content {
      return Good(Leaf(Comment(Trim(content[if content[0] == '/' then 1 else 2..])), number));
    }
    if |content| > 1 && content[0] == ':' && IsNameCharacter(content[1]) {
      return Good(Leaf(Filter(Trim(content[1..])), number));
    }
    if "-" <= content {
      r := BuildControl(Trim(content[1..]), number);
    } else if StartsOutput(content) {
      var escaped := content[0] == '=';
      r := BuildOutput(Trim(content[if escaped then 1 else 2..]), escaped, number);
    } else if content != "" && content[0] in "%.#" {
      r := BuildElement(content, number);
    } else {
      r := BuildText(DropBackslash(content), number);
    }
  }
}
