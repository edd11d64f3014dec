/**
  The pieces the tag handler emits and their textual form.

  A piece is one element of the handler's result list: an opening tag with its
  attributes, a closing tag, or a run of character data. The splitter sees
  only the rendered strings; the tag structure of a piece is kept here so that
  nesting can be stated even when character data happens to look like markup.
 */
module Markup {
  import opened Wrappers
  import opened Strings

  /** One attribute of a start tag, value always a string. */
  datatype Attr = Attr(name: string, value: string)

  datatype Piece =
    | Opener(tag: string, attrs: seq<Attr>)
    | Closer(tag: string)
    | Text(data: string)

  /** The serialized form of one attribute: a space, the name, `=` and the value in double quotes. */
  function FormatAttr(a: Attr): string
  {
    " " + a.name + "=\"" + a.value + "\""
  }

  /** The serialized attribute list, attributes in their given order, values not escaped. */
  function FormatAttrs(attrs: seq<Attr>): (s: string)
    ensures |s| == AttrsSize(attrs)
  {
    if |attrs| == 0 then "" else FormatAttr(attrs[0]) + FormatAttrs(attrs[1..])
  }

  /** The length an unescaped serialization must have: four framing characters per attribute. */
  function AttrsSize(attrs: seq<Attr>): nat
  {
    if |attrs| == 0 then 0 else |attrs[0].name| + |attrs[0].value| + 4 + AttrsSize(attrs[1..])
  }

  /** The serialized start tag `<tag attr="value" ...>`. */
  function OpenTag(tag: string, attrs: seq<Attr>): string
  {
    "<" + tag + FormatAttrs(attrs) + ">"
  }

  /** The serialized end tag `</tag>`. */
  function CloseTag(tag: string): string
  {
    "</" + tag + ">"
  }

  function Render(p: Piece): string
  {
    match p
    case Opener(tag, attrs) => OpenTag(tag, attrs)
    case Closer(tag) => CloseTag(tag)
    case Text(data) => data
  }

  function RenderAll(ps: seq<Piece>): (r: seq<string>)
    ensures |r| == |ps|
    ensures forall i :: 0 <= i < |ps| ==> r[i] == Render(ps[i])
  {
    seq(|ps|, i requires 0 <= i < |ps| => Render(ps[i]))
  }

  /** Re-opening string for a stack of open tags: `<t>` for each, outermost first, no attributes. */
  function CurrentStructure(stack: seq<string>): string
  {
    Join(seq(|stack|, i requires 0 <= i < |stack| => "<" + stack[i] + ">"))
  }

  /** Closing string for a stack of open tags: `</t>` for each, innermost first. */
  function CloseTags(stack: seq<string>): string
  {
    Join(seq(|stack|, i requires 0 <= i < |stack| => "</" + stack[|stack| - 1 - i] + ">"))
  }

  /** The pieces that re-open every tag of the stack, outermost first. */
  function OpenPieces(stack: seq<string>): (r: seq<Piece>)
    ensures |r| == |stack|
    ensures forall i :: 0 <= i < |stack| ==> r[i] == Opener(stack[i], [])
  {
    seq(|stack|, i requires 0 <= i < |stack| => Opener(stack[i], []))
  }

  /** The pieces that close every tag of the stack, innermost first. */
  function ClosePieces(stack: seq<string>): (r: seq<Piece>)
    ensures |r| == |stack|
    ensures forall i :: 0 <= i < |stack| ==> r[i] == Closer(stack[|stack| - 1 - i])
  {
    seq(|stack|, i requires 0 <= i < |stack| => Closer(stack[|stack| - 1 - i]))
  }

  // ---------------------------------------------------------------------------
  // Nesting discipline
  // ---------------------------------------------------------------------------

  /**
    The list of open tags after one more piece: an opener pushes its tag, a
    closer must name the innermost open tag and pops it, data changes nothing.
    None when a closer does not match.
   */
  function Step(open: seq<string>, p: Piece): Option<seq<string>>
  {
    match p
    case Opener(tag, _) => Some(open + [tag])
    case Closer(tag) =>
      if |open| > 0 && open[|open| - 1] == tag then Some(open[..|open| - 1]) else None
    case Text(_) => Some(open)
  }

  /** The open tags after a whole list of pieces, starting from `open`; None if some closer does not match. */
  function Run(open: seq<string>, ps: seq<Piece>): Option<seq<string>>
    decreases |ps|
  {
    if |ps| == 0 then Some(open)
    else
      match Step(open, ps[0])
      case None => None
      case Some(next) => Run(next, ps[1..])
  }

  /** Every closer matches the most recent unclosed opener and nothing is left open. */
  predicate WellNested(ps: seq<Piece>)
  {
    Run([], ps) == Some([])
  }

  lemma {:induction false} RunAppend(open: seq<string>, ps: seq<Piece>, qs: seq<Piece>)
    ensures Run(open, ps + qs) ==
      match Run(open, ps)
      case None => None
      case Some(mid) => Run(mid, qs)
    decreases |ps|
  {
    if |ps| == 0 {
      assert ps + qs == qs;
    } else {
      assert (ps + qs)[0] == ps[0];
      assert (ps + qs)[1..] == ps[1..] + qs;
      match Step(open, ps[0])
      case None =>
      case Some(next) => RunAppend(next, ps[1..], qs);
    }
  }

  /** Closing the tags above position k, innermost first, leaves exactly the tags below k open. */
  lemma {:induction false} RunClosers(stack: seq<string>, k: nat)
    requires k <= |stack|
    ensures Run(stack, ClosePieces(stack[k..])) == Some(stack[..k])
    decreases |stack| - k
  {
    if k == |stack| {
      assert ClosePieces(stack[k..]) == [];
      assert stack[..k] == stack;
    } else {
      var n := |stack|;
      var inner := stack[..n - 1];
      var cs := ClosePieces(stack[k..]);
      assert cs[0] == Closer(stack[n - 1]);
      assert Step(stack, cs[0]) == Some(inner);
      assert inner[k..] == stack[k..n - 1];
      assert cs[1..] == ClosePieces(inner[k..]);
      RunClosers(inner, k);
      assert inner[..k] == stack[..k];
    }
  }

  /** Re-opening a stack of tags on top of `open` leaves all of them open, in order. */
  lemma {:induction false} RunOpeners(open: seq<string>, stack: seq<string>)
    ensures Run(open, OpenPieces(stack)) == Some(open + stack)
    decreases |stack|
  {
    if |stack| == 0 {
      assert open + stack == open;
    } else {
      var ps := OpenPieces(stack);
      assert ps[1..] == OpenPieces(stack[1..]);
      RunOpeners(open + [stack[0]], stack[1..]);
      assert open + [stack[0]] + stack[1..] == open + stack;
    }
  }

  /** Re-opening the open tags and then closing them is itself well nested. */
  lemma ReopenThenCloseIsWellNested(stack: seq<string>)
    ensures WellNested(OpenPieces(stack) + ClosePieces(stack))
  {
    RunAppend([], OpenPieces(stack), ClosePieces(stack));
    RunOpeners([], stack);
    assert [] + stack == stack;
    RunClosers(stack, 0);
    assert stack[0..] == stack;
  }

  // ---------------------------------------------------------------------------
  // Serialization facts
  // ---------------------------------------------------------------------------

  /** Serialization distributes over concatenation of attribute lists, so the order is kept. */
  lemma {:induction false} FormatAttrsAppend(a: seq<Attr>, b: seq<Attr>)
    ensures FormatAttrs(a + b) == FormatAttrs(a) + FormatAttrs(b)
    decreases |a|
  {
    if |a| == 0 {
      assert a + b == b;
    } else {
      assert (a + b)[0] == a[0];
      assert (a + b)[1..] == a[1..] + b;
      FormatAttrsAppend(a[1..], b);
    }
  }

  /**
    The i-th attribute appears verbatim, as ` name="value"`, between the
    serializations of the attributes before it and those after it.
   */
  lemma {:induction false} AttributeVerbatim(attrs: seq<Attr>, i: nat)
    requires i < |attrs|
    ensures FormatAttrs(attrs) == FormatAttrs(attrs[..i]) + FormatAttr(attrs[i]) + FormatAttrs(attrs[i + 1..])
  {
    assert attrs == attrs[..i] + attrs[i..];
    FormatAttrsAppend(attrs[..i], attrs[i..]);
    assert attrs[i..][1..] == attrs[i + 1..];
  }

  /** The re-opening string is the rendering of the re-opening pieces. */
  lemma CurrentStructureRendersOpeners(stack: seq<string>)
    ensures CurrentStructure(stack) == Join(RenderAll(OpenPieces(stack)))
  {
    assert forall i :: 0 <= i < |stack| ==> Render(OpenPieces(stack)[i]) == "<" + stack[i] + ">";
    assert RenderAll(OpenPieces(stack)) == seq(|stack|, i requires 0 <= i < |stack| => "<" + stack[i] + ">");
  }

  /** The closing string is the rendering of the closing pieces. */
  lemma CloseTagsRendersClosers(stack: seq<string>)
    ensures CloseTags(stack) == Join(RenderAll(ClosePieces(stack)))
  {
    assert RenderAll(ClosePieces(stack)) ==
      seq(|stack|, i requires 0 <= i < |stack| => "</" + stack[|stack| - 1 - i] + ">");
  }

  /** With nothing open there is nothing to re-open or close. */
  lemma EmptyStackFraming()
    ensures CurrentStructure([]) == "" && CloseTags([]) == ""
  {
  }
}
