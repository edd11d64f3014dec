# msg_split in Dafny

A model of the HTML message splitter in `msg_split.py`. The splitter cuts one
HTML document into fragments. The original pieces of each fragment stay within
a budget (`max_len`, 4096 by default). Any tag still open at the end of the
document is closed at the end of every fragment and re-opened at the start of
every later fragment. Those closing and re-opening strings come on top of the
budget, so such a document can yield fragments longer than `max_len`.

The splitter has two parts, and the model follows that structure:

- **The tag handler** (`TagHandler` in `tag_handler.dfy`). These are the
  callbacks `handle_starttag`, `handle_endtag` and `handle_data`. They keep a
  stack of open tag names and a result list of pieces. The HTML tokenizer that
  invokes them is not modelled: a document is given as its list of tokenizer
  events (`StartTag`, `EndTag`, `Data`). Feeding it folds the handlers over
  that list (`Feed`).
- **The packing loop of `split_message`** (`Splitter` in `splitter.dfy`).
  `Pack` walks the rendered result once, step by step, exactly as the loop
  does. Its meaning is given separately by `IsGreedyPartition`, a declarative
  statement of the greedy cut. That partition is unique (`GreedyPartitionUnique`),
  and `GreedyGroups` computes it. The main theorems say that the loop produces
  the framed greedy partition, or fails at the first oversized piece.

Supporting modules:

- `Markup` (`markup.dfy`) holds the pieces, their serialization (`_format_attrs`,
  `get_current_structure`, `close_tags`) and a nesting checker `Run`. A piece
  is an opener, a closer or text. Its tag structure is kept, so nesting can be
  stated even when character data happens to look like markup.
- `Strings` (`strings.dfy`) holds `"".join` (`Join`), summed lengths and
  flattening.
- `Wrappers` (`wrappers.dfy`) holds `Option`.
- `BasicSplit` (`test_basic_split.dfy`) works through the document of
  `test_basic_split` (test.py:18-22).

`split_message` is a generator that raises `ValueError` part-way. It is
modelled as a function returning `Done(fragments)` or
`Failed(yielded, error)`. The `yielded` list holds the fragments the generator
produces before the exception.

Behaviour of the code that the model keeps:

- **Framing uses the final stack.** `parser.feed(source)` (msg_split.py:51) runs
  before the loop. So `close_tags()` and `get_current_structure()`
  (msg_split.py:63, 65, 73) see the stack after the whole document, not the
  stack at the cut. The packer therefore takes both strings as fixed
  parameters. For a balanced document they are empty. As the code reads,
  the first fragment of `test_basic_split` ends in `<i>`, not in a closing tag
  as test.py:21-22 expect (`BasicSplit.CutsAfterOpener`).
- **Dangling end tags close everything.** An end tag whose name is not open
  closes every open tag, innermost first, and emits no closer of its own
  (msg_split.py:22-26).
- **Text is never subdivided.** Every piece, including a run of character
  data, is atomic. Any piece longer than the budget fails with
  `PieceTooLong` (msg_split.py:55-57).
- **The counter restarts at 0 after a cut** (msg_split.py:66), even though the
  new fragment starts with the re-opening string. The budget therefore bounds
  the original pieces of a fragment, not its framing.
- **The second error is unreachable.** The "cannot split" error
  (msg_split.py:60-61) is modelled as `Unsplittable`. `SplitFailsIffOversized`
  proves it never happens.

## Model

| member | source | states |
|---|---|---|
| Markup.AttributeVerbatim | msg_split.py:31-32 | Attribute i appears verbatim as ` name="value"`. It sits between the serialization of the attributes before it and those after it, so order is kept and nothing is escaped. |
| Markup.CurrentStructureRendersOpeners | msg_split.py:34-36 | The re-opening string is the rendering of one attribute-less opener per open tag, outermost first. |
| Markup.CloseTagsRendersClosers | msg_split.py:38-40 | The closing string is the rendering of one closer per open tag, innermost first. |
| Markup.RunClosers | msg_split.py:38-40 | Closing the tags above position k, innermost first, matches every closer and leaves exactly the tags below k open. |
| Markup.ReopenThenCloseIsWellNested | msg_split.py:34-40 | Re-opening a stack and then closing it is a well-nested piece list. |
| TagHandler.HandleStartTag | msg_split.py:17-19 | The tag is pushed. Exactly one piece is appended, rendering as `<tag` + attributes + `>`. The earlier pieces are kept and nesting is preserved. |
| TagHandler.Unwind | msg_split.py:22-23 | The loop stops at the topmost occurrence of the tag, or pops everything when the tag is absent. The remaining stack is a prefix ending in the tag, or empty; the tag is not among the popped entries; the emitted pieces are their closers, innermost first. |
| TagHandler.HandleEndTag | msg_split.py:21-26 | With the tag open at topmost position i: the stack becomes the prefix below i, and the closers of entries i and up are appended, innermost first. With the tag absent: the stack empties and every open tag is closed. An empty stack changes nothing. Only closers are added, and nesting is preserved. |
| TagHandler.HandleData | msg_split.py:28-29 | The stack is unchanged and exactly one piece, the data itself, is appended. |
| TagHandler.Handle | msg_split.py:17-29 | Every callback preserves the invariant that the result's pieces leave open exactly the stack's tags, in order. |
| TagHandler.Feed | msg_split.py:12-29 | After any event sequence from a fresh handler, the result's pieces leave open exactly the stack's tags, in order. |
| TagHandler.FeedThenCloseIsWellNested | msg_split.py:17-40 | The result followed by the closers of the final stack is well nested: every closer matches the most recent unclosed opener. |
| TagHandler.FeedKeepsData | msg_split.py:28-29 | The text pieces of the result are exactly the data events, unchanged and in order. |
| TagHandler.DataIsEmitted | msg_split.py:28-29 | Every data event's text is one of the result's pieces. |
| Splitter.GreedyPartitionUnique | msg_split.py:59-69 | A list of pieces has at most one greedy partition: consecutive groups within the budget, where no group could take the next group's first piece. |
| Splitter.GreedyGroupsArePartition | msg_split.py:53-69 | When every piece fits alone, the greedy grouping is such a partition. |
| Splitter.PackIsGreedy | msg_split.py:53-73 | From any state whose fragment holds a lead and a group within the budget, the rest of the loop plus the final flush yields the framed greedy groups. |
| Splitter.PackFailsAt | msg_split.py:53-69 | From the same kind of state, the loop fails on the first oversized piece. Before failing it yields every completed fragment of the greedy groups before that piece. |
| Splitter.SplitIsGreedy | msg_split.py:53-73 | When every piece fits, the split yields one fragment per greedy group. Each fragment is the group joined plus the closing string; every fragment after the first also starts with the re-opening string. |
| Splitter.SplitFailsAtFirstOversized | msg_split.py:53-63 | When piece f is the first piece longer than the budget, the split fails with PieceTooLong(length of piece f, budget). Before that it yields every completed fragment of the pieces before f. |
| Splitter.SplitFailsIffOversized | msg_split.py:54-61 | The split fails exactly when some piece is longer than the budget, and then always with PieceTooLong; the empty-counter error is unreachable. |
| Splitter.SplitBoundAndGreedy | msg_split.py:55-69 | Each fragment's length is at most the budget plus the closing string, plus the re-opening string after the first. The fragments are the framing of a greedy partition of the pieces. |
| Splitter.SplitWithoutFramingFits | msg_split.py:59-69 | With empty closing and re-opening strings, every fragment fits the budget. |
| Splitter.SplitFragmentCount | msg_split.py:71-73 | A successful split yields no fragment exactly when there are no pieces. |
| Splitter.SplitReconstructs | msg_split.py:62-73 | Every fragment ends with the closing string, and every later fragment starts with the re-opening string. Stripping them and concatenating gives `"".join` of the pieces. |
| Splitter.MessageFailsIffOversizedPiece | msg_split.py:47-57 | A whole document fails to split exactly when some piece of the handler's result renders longer than the budget. |
| Splitter.OversizedDataFails | msg_split.py:54-57 | A data run longer than the budget makes the document fail with PieceTooLong: text is never subdivided. |
| Splitter.BalancedMessageFits | msg_split.py:51-73 | When no tag is left open at the end of the document, every fragment fits the budget. The fragments concatenate to the rendered result. |
| BasicSplit.CutsAfterOpener | test.py:18-22 | The pieces of the test document, split with a budget of 30 and empty framing, give exactly two fragments: `<p>Hello, <b>world</b>! <i>` and `Nice to meet you!</i></p>`. The count of two matches line 20. The first fragment ends in the opener `<i>`, not in `</b></p>` or `</p>` as line 21 expects. |

## Left out

- HTML tokenization by `html.parser.HTMLParser` (msg_split.py:1, 7, 13, 51) is not modelled. A document is its list of tokenizer events. Entity handling, comments and what `feed` withholds without `close()` belong to that library.
- Attribute values are strings. A value-less attribute, which the code would format as `None`, is not modelled.
- Generator laziness is not modelled. The outcome is the full list of fragments, or the fragments yielded before the error plus the error.
- The text of the `ValueError` messages is not modelled. `PieceTooLong` carries the two numbers the first message reports.
- split_msg.py (argument parsing, file reading, printing) is I/O around `split_message` and is not part of this model.
- Lengths are `|s|` over `seq<char>`. Python counts Unicode code points; no encoding or normalization is modelled.
- The default budget `MAX_LEN` is the constant `Splitter.DefaultMaxLen`, and `Splitter.SplitMessageDefault` splits with it (msg_split.py:4, 43). No property is stated about the default beyond that.
- BasicSplit.CutsAfterOpener: starts from the ten rendered pieces of the test document. That the tokenizer and the handlers produce exactly these pieces, with nothing left open, is stated in the doc comment but not proved, because tokenization is not modelled.
