/**
  The tag handler: the callbacks the HTML tokenizer invokes for each start tag,
  end tag and run of character data. Together they maintain a stack of open
  tag names (innermost last) and a result list of pieces.

  The tokenizer itself is not modelled: its output is taken as a list of
  events, and feeding a document is folding the handlers over that list.
 */
module TagHandler {
  import opened Wrappers
  import opened Markup

  /** One tokenizer callback. */
  datatype Event =
    | StartTag(tag: string, attrs: seq<Attr>)
    | EndTag(tag: string)
    | Data(data: string)

  /** The handler's state: open tags (innermost last) and the pieces emitted so far. */
  datatype Handler = Handler(stack: seq<string>, result: seq<Piece>)

  /** A freshly constructed handler. */
  const Initial: Handler := Handler([], [])

  /** The pieces emitted so far leave open exactly the tags on the stack, in order. */
  predicate Nested(h: Handler)
  {
    Run([], h.result) == Some(h.stack)
  }

  /** A start tag is pushed and its serialization, attributes in order, is emitted. */
  function HandleStartTag(h: Handler, tag: string, attrs: seq<Attr>): (h': Handler)
    ensures h'.stack == h.stack + [tag]
    ensures |h'.result| == |h.result| + 1 && h'.result[..|h.result|] == h.result
    ensures Render(h'.result[|h.result|]) == "<" + tag + FormatAttrs(attrs) + ">"
    ensures Nested(h) ==> Nested(h')
  {
    var h' := Handler(h.stack + [tag], h.result + [Opener(tag, attrs)]);
    assert h'.result[..|h.result|] == h.result;
    RunAppend([], h.result, [Opener(tag, attrs)]);
    h'
  }

  /**
    The loop of the end-tag handler: pop and close every tag above the
    topmost occurrence of `tag`, or every tag when `tag` is not open.
    Returns the remaining stack (empty, or ending in `tag`) and the emitted closers.
   */
  function Unwind(stack: seq<string>, tag: string): (r: (seq<string>, seq<Piece>))
    ensures |r.0| <= |stack| && r.0 == stack[..|r.0|]
    ensures |r.0| == 0 || r.0[|r.0| - 1] == tag
    ensures tag !in stack[|r.0|..]
    ensures r.1 == ClosePieces(stack[|r.0|..])
    decreases |stack|
  {
    if |stack| == 0 || stack[|stack| - 1] == tag then
      (stack, [])
    else
      var n := |stack|;
      var (rest, closed) := Unwind(stack[..n - 1], tag);
      assert stack[..n - 1][..|rest|] == stack[..|rest|];
      assert stack[|rest|..] == stack[..n - 1][|rest|..] + [stack[n - 1]];
      assert [Closer(stack[n - 1])] + closed == ClosePieces(stack[|rest|..]);
      (rest, [Closer(stack[n - 1])] + closed)
  }

  /**
    An end tag closes, innermost first, every tag above its topmost occurrence
    and then the tag itself. A tag that is not open closes every open tag and
    emits no closer of its own.
   */
  function HandleEndTag(h: Handler, tag: string): (h': Handler)
    ensures forall i :: 0 <= i < |h.stack| && h.stack[i] == tag && tag !in h.stack[i + 1..] ==>
      h'.stack == h.stack[..i] && h'.result == h.result + ClosePieces(h.stack[i..])
    ensures tag !in h.stack ==> h'.stack == [] && h'.result == h.result + ClosePieces(h.stack)
    ensures |h.result| <= |h'.result| && h'.result[..|h.result|] == h.result
    ensures forall i :: |h.result| <= i < |h'.result| ==> h'.result[i].Closer?
    ensures Nested(h) ==> Nested(h')
    ensures |h.stack| == 0 ==> h' == h
  {
    var (rest, closed) := Unwind(h.stack, tag);
    var h' :=
      if |rest| > 0 then Handler(rest[..|rest| - 1], h.result + closed + [Closer(tag)])
      else Handler([], h.result + closed);
    EndTagOutcome(h, tag, rest, closed, h');
    h'
  }

  /** The facts about one end-tag call, proved from what `Unwind` returns. */
  lemma {:induction false} EndTagOutcome(h: Handler, tag: string, rest: seq<string>, closed: seq<Piece>, h': Handler)
    requires (rest, closed) == Unwind(h.stack, tag)
    requires h' == if |rest| > 0 then Handler(rest[..|rest| - 1], h.result + closed + [Closer(tag)])
                   else Handler([], h.result + closed)
    ensures forall i :: 0 <= i < |h.stack| && h.stack[i] == tag && tag !in h.stack[i + 1..] ==>
      h'.stack == h.stack[..i] && h'.result == h.result + ClosePieces(h.stack[i..])
    ensures tag !in h.stack ==> h'.stack == [] && h'.result == h.result + ClosePieces(h.stack)
    ensures |h.result| <= |h'.result| && h'.result[..|h.result|] == h.result
    ensures forall i :: |h.result| <= i < |h'.result| ==> h'.result[i].Closer?
    ensures Nested(h) ==> Nested(h')
    ensures |h.stack| == 0 ==> h' == h
  {
    var i := EndTagCut(h, tag, rest, closed, h');
    ClosersFrom(h, i);
    if |h.stack| == 0 {
      assert h.result + ClosePieces(h.stack) == h.result;
    }
  }

  /** The position from which one end-tag call closes tags: just below the topmost `tag`, or the bottom. */
  lemma {:induction false} EndTagCut(h: Handler, tag: string, rest: seq<string>, closed: seq<Piece>, h': Handler) returns (i: nat)
    requires (rest, closed) == Unwind(h.stack, tag)
    requires h' == if |rest| > 0 then Handler(rest[..|rest| - 1], h.result + closed + [Closer(tag)])
                   else Handler([], h.result + closed)
    ensures i <= |h.stack| && h' == Handler(h.stack[..i], h.result + ClosePieces(h.stack[i..]))
    ensures forall j :: 0 <= j < |h.stack| && h.stack[j] == tag && tag !in h.stack[j + 1..] ==> j == i
    ensures tag !in h.stack ==> i == 0
  {
    if |rest| > 0 {
      EndTagFound(h.stack, tag, rest, closed);
      i := |rest| - 1;
    } else {
      assert h.stack[0..] == h.stack;
      i := 0;
    }
  }

  /** Closing every tag from position i upward: the stack keeps the tags below i, the result only grows by closers. */
  lemma ClosersFrom(h: Handler, i: nat)
    requires i <= |h.stack|
    ensures var h' := Handler(h.stack[..i], h.result + ClosePieces(h.stack[i..]));
      && h'.result[..|h.result|] == h.result
      && (forall j :: |h.result| <= j < |h'.result| ==> h'.result[j].Closer?)
      && (Nested(h) ==> Nested(h'))
  {
    var h' := Handler(h.stack[..i], h.result + ClosePieces(h.stack[i..]));
    assert h'.result[..|h.result|] == h.result;
    if Nested(h) {
      RunAppend([], h.result, ClosePieces(h.stack[i..]));
      RunClosers(h.stack, i);
    }
  }

  /** When the end tag is open, `Unwind` stops just above its topmost occurrence. */
  lemma EndTagFound(stack: seq<string>, tag: string, rest: seq<string>, closed: seq<Piece>)
    requires (rest, closed) == Unwind(stack, tag)
    requires |rest| > 0
    ensures stack[|rest| - 1] == tag
    ensures forall j :: 0 <= j < |stack| && stack[j] == tag && tag !in stack[j + 1..] ==> j == |rest| - 1
    ensures closed + [Closer(tag)] == ClosePieces(stack[|rest| - 1..])
    ensures rest[..|rest| - 1] == stack[..|rest| - 1]
  {
    var k := |rest|;
    assert stack[k - 1..] == [tag] + stack[k..];
  }

  /** Character data is emitted unchanged; the stack is untouched. */
  function HandleData(h: Handler, data: string): (h': Handler)
    ensures h'.stack == h.stack
    ensures |h'.result| == |h.result| + 1 && h'.result[..|h.result|] == h.result
    ensures Render(h'.result[|h.result|]) == data
    ensures Nested(h) ==> Nested(h')
  {
    var h' := Handler(h.stack, h.result + [Text(data)]);
    assert h'.result[..|h.result|] == h.result;
    RunAppend([], h.result, [Text(data)]);
    h'
  }

  /** Dispatch of one tokenizer callback. */
  function Handle(h: Handler, e: Event): (h': Handler)
    ensures Nested(h) ==> Nested(h')
  {
    match e
    case StartTag(tag, attrs) => HandleStartTag(h, tag, attrs)
    case EndTag(tag) => HandleEndTag(h, tag)
    case Data(data) => HandleData(h, data)
  }

  /** Feeding a whole document: a fresh handler receives every callback in order. */
  function Feed(events: seq<Event>): (h: Handler)
    ensures Nested(h)
    decreases |events|
  {
    if |events| == 0 then Initial
    else Handle(Feed(events[..|events| - 1]), events[|events| - 1])
  }

  /** The emitted pieces followed by the closers of the final stack form a well-nested list. */
  lemma FeedThenCloseIsWellNested(events: seq<Event>)
    ensures WellNested(Feed(events).result + ClosePieces(Feed(events).stack))
  {
    var h := Feed(events);
    RunAppend([], h.result, ClosePieces(h.stack));
    RunClosers(h.stack, 0);
    assert h.stack[0..] == h.stack;
  }

  // ---------------------------------------------------------------------------
  // Character data passes through unchanged
  // ---------------------------------------------------------------------------

  /** The character data of the text pieces, in order. */
  function Texts(ps: seq<Piece>): seq<string>
    decreases |ps|
  {
    if |ps| == 0 then []
    else (if ps[0].Text? then [ps[0].data] else []) + Texts(ps[1..])
  }

  /** The character data of the data events, in order. */
  function DataOf(events: seq<Event>): seq<string>
    decreases |events|
  {
    if |events| == 0 then []
    else DataOf(events[..|events| - 1]) + (if events[|events| - 1].Data? then [events[|events| - 1].data] else [])
  }

  lemma {:induction false} TextsAppend(a: seq<Piece>, b: seq<Piece>)
    ensures Texts(a + b) == Texts(a) + Texts(b)
    decreases |a|
  {
    if |a| == 0 {
      assert a + b == b;
    } else {
      assert (a + b)[0] == a[0];
      assert (a + b)[1..] == a[1..] + b;
      TextsAppend(a[1..], b);
    }
  }

  lemma {:induction false} TextsOfTags(ps: seq<Piece>)
    requires forall i :: 0 <= i < |ps| ==> !ps[i].Text?
    ensures Texts(ps) == []
    decreases |ps|
  {
    if |ps| > 0 {
      TextsOfTags(ps[1..]);
    }
  }

  lemma {:induction false} TextInTexts(ps: seq<Piece>, s: string)
    requires s in Texts(ps)
    ensures Text(s) in ps
    decreases |ps|
  {
    if !(ps[0].Text? && ps[0].data == s) {
      TextInTexts(ps[1..], s);
    }
  }

  /** One callback adds the event's data to the text pieces when it is a data event, and nothing otherwise. */
  lemma HandleKeepsData(h: Handler, e: Event)
    ensures Texts(Handle(h, e).result) == Texts(h.result) + (if e.Data? then [e.data] else [])
  {
    var h' := Handle(h, e);
    var added := h'.result[|h.result|..];
    assert h'.result == h.result + added;
    TextsAppend(h.result, added);
    if !e.Data? {
      TextsOfTags(added);
    }
  }

  /** The text pieces of the result are exactly the data events, unchanged and in order. */
  lemma {:induction false} FeedKeepsData(events: seq<Event>)
    ensures Texts(Feed(events).result) == DataOf(events)
    decreases |events|
  {
    if |events| > 0 {
      var n := |events|;
      FeedKeepsData(events[..n - 1]);
      HandleKeepsData(Feed(events[..n - 1]), events[n - 1]);
    }
  }

  /** Every data event's text is one of the emitted pieces. */
  lemma {:induction false} DataIsEmitted(events: seq<Event>, j: nat)
    requires j < |events| && events[j].Data?
    ensures Text(events[j].data) in Feed(events).result
  {
    DataInDataOf(events, j);
    FeedKeepsData(events);
    TextInTexts(Feed(events).result, events[j].data);
  }

  lemma {:induction false} DataInDataOf(events: seq<Event>, j: nat)
    requires j < |events| && events[j].Data?
    ensures events[j].data in DataOf(events)
    decreases |events|
  {
    if j < |events| - 1 {
      DataInDataOf(events[..|events| - 1], j);
    }
  }
}
