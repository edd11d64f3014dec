/**
  The document of `test_basic_split`, `<p>Hello, <b>world</b>! <i>Nice to meet you!</i></p>`,
  split with a budget of 30.

  Nothing is left open at the end of this document, so the framing strings are
  empty. The greedy cut falls after the opener `<i>`, because the text that
  follows it would overflow the budget.
 */
module BasicSplit {
  import opened Strings
  import opened Splitter

  /**
    The pieces of `<p>Hello, <b>world</b>! <i>Nice to meet you!</i></p>`, one
    per start tag, end tag and data run, as the handlers render them.
   */
  function Pieces(): seq<string>
  {
    ["<p>", "Hello, ", "<b>", "world", "</b>", "! ", "<i>", "Nice to meet you!", "</i>", "</p>"]
  }

  lemma HeadLength()
    ensures TotalLength(Pieces()[..7]) == 27
  {
    assert Pieces()[..7] == ["<p>", "Hello, ", "<b>", "world", "</b>", "! ", "<i>"];
  }

  lemma TailLength()
    ensures TotalLength(Pieces()[7..]) == 25
  {
    assert Pieces()[7..] == ["Nice to meet you!", "</i>", "</p>"];
  }

  /** Cutting after the seventh piece is the greedy partition for a budget of 30. */
  lemma CutIsGreedy()
    ensures IsGreedyPartition([Pieces()[..7], Pieces()[7..]], Pieces(), 30)
  {
    var ps := Pieces();
    var groups := [ps[..7], ps[7..]];
    HeadLength();
    TailLength();
    assert Flatten(groups[1..]) == ps[7..] by {
      assert groups[1..][1..] == [];
    }
    assert ps[..7] + ps[7..] == ps;
    assert Overflows(groups, 0, 30);
  }

  lemma HeadJoin()
    ensures Join(Pieces()[..7]) == "<p>Hello, <b>world</b>! <i>"
  {
    assert Pieces()[..7] == ["<p>", "Hello, ", "<b>", "world", "</b>", "! ", "<i>"];
  }

  lemma TailJoin()
    ensures Join(Pieces()[7..]) == "Nice to meet you!</i></p>"
  {
    assert Pieces()[7..] == ["Nice to meet you!", "</i>", "</p>"];
  }

  lemma Fragments()
    ensures Frame([Pieces()[..7], Pieces()[7..]], "", "", "")
         == ["<p>Hello, <b>world</b>! <i>", "Nice to meet you!</i></p>"]
  {
    var ps := Pieces();
    HeadJoin();
    TailJoin();
    var head, tail := Join(ps[..7]), Join(ps[7..]);
    var frags := Frame([ps[..7], ps[7..]], "", "", "");
    assert frags[0] == "" + head + "" == head;
    assert frags[1] == "" + tail + "" == tail;
  }

  /**
    With nothing left open and a budget of 30, the document splits into two
    fragments, and the first one ends in the opener `<i>`: the cut falls
    before the text that would overflow, not at a closing tag.
   */
  lemma CutsAfterOpener()
    ensures SplitPieces(Pieces(), 30, "", "")
         == Done(["<p>Hello, <b>world</b>! <i>", "Nice to meet you!</i></p>"])
  {
    var ps := Pieces();
    AllFitMeans(ps, 30);
    SplitIsGreedy(ps, 30, "", "");
    GreedyGroupsArePartition(ps, 30);
    CutIsGreedy();
    GreedyPartitionUnique(GreedyGroups(ps, 30), [ps[..7], ps[7..]], ps, 30);
    Fragments();
  }
}
