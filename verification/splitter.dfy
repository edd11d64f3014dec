/**
  The fragment packer of `split_message`.

  The document is fed to the tag handler first; then the handler's result
  list is walked once. Pieces are accumulated while their summed length stays
  within the budget; the piece that would overflow it starts a new fragment.
  Each fragment is followed by the closing string and every fragment after
  the first is preceded by the re-opening string. Both strings are computed
  from the handler's stack after the WHOLE document has been fed, so they are
  fixed for the entire split.

  The packing itself is `Pack`, a step-by-step model of the loop. Its meaning
  is given independently by `IsGreedyPartition`, a declarative description of
  the greedy cut, whose unique solution is `GreedyGroups`.
 */
module Splitter {
  import opened Strings
  import opened Markup
  import opened TagHandler

  /** The default budget of a fragment, in characters. */
  const DefaultMaxLen: int := 4096

  datatype SplitError =
    /** A single piece is longer than the budget. */
    | PieceTooLong(length: nat, maxLen: int)
    /** An overflowing piece met an empty counter. */
    | Unsplittable

  /**
    The outcome of a split: every fragment, or the fragments produced before
    the failure together with the failure.
   */
  datatype Outcome =
    | Done(fragments: seq<string>)
    | Failed(yielded: seq<string>, error: SplitError)

  /** The loop state: fragments produced so far, the parts of the current fragment, and its counted length. */
  datatype Packer = Packer(yielded: seq<string>, current: seq<string>, length: nat)

  const Start: Packer := Packer([], [], 0)

  /** The packing loop over the remaining pieces, followed by the final flush. */
  function Pack(st: Packer, pieces: seq<string>, maxLen: int, closing: string, reopening: string): Outcome
    decreases |pieces|
  {
    if |pieces| == 0 then
      Done(if |st.current| > 0 then st.yielded + [Join(st.current) + closing] else st.yielded)
    else
      var piece := pieces[0];
      if |piece| > maxLen then
        Failed(st.yielded, PieceTooLong(|piece|, maxLen))
      else if st.length + |piece| > maxLen then
        if st.length == 0 then
          Failed(st.yielded, Unsplittable)
        else
          // cut: close the fragment, re-open, and count only the piece
          var next := Packer(st.yielded + [Join(st.current) + closing], [reopening, piece], |piece|);
          Pack(next, pieces[1..], maxLen, closing, reopening)
      else
        Pack(Packer(st.yielded, st.current + [piece], st.length + |piece|), pieces[1..], maxLen, closing, reopening)
  }

  /** Splitting a list of pieces with fixed closing and re-opening strings. */
  function SplitPieces(pieces: seq<string>, maxLen: int, closing: string, reopening: string): Outcome
  {
    Pack(Start, pieces, maxLen, closing, reopening)
  }

  /**
    Splitting a document given as its tokenizer events: the events are fed
    first, then the rendered result is packed with the framing of the final stack.
   */
  function SplitMessage(events: seq<Event>, maxLen: int): Outcome
  {
    var h := Feed(events);
    SplitPieces(RenderAll(h.result), maxLen, CloseTags(h.stack), CurrentStructure(h.stack))
  }

  /** Splitting with the default budget. */
  function SplitMessageDefault(events: seq<Event>): Outcome
  {
    SplitMessage(events, DefaultMaxLen)
  }

  // ---------------------------------------------------------------------------
  // The greedy partition, stated independently of the loop
  // ---------------------------------------------------------------------------

  /** Every piece on its own fits the budget (stated piece by piece; `AllFitMeans` gives the indexed form). */
  predicate AllFit(pieces: seq<string>, maxLen: int)
    decreases |pieces|
  {
    |pieces| == 0 || (|pieces[0]| <= maxLen && AllFit(pieces[1..], maxLen))
  }

  /** `AllFit` holds exactly when no piece is longer than the budget. */
  lemma {:induction false} AllFitMeans(pieces: seq<string>, maxLen: int)
    ensures AllFit(pieces, maxLen) <==> forall i :: 0 <= i < |pieces| ==> |pieces[i]| <= maxLen
    decreases |pieces|
  {
    if |pieces| > 0 {
      AllFitMeans(pieces[1..], maxLen);
      assert forall i :: 0 < i < |pieces| ==> pieces[i] == pieces[1..][i - 1];
    }
  }

  /** Group g cannot take the first piece of group g + 1 without overflowing. */
  predicate Overflows(groups: seq<seq<string>>, g: nat, maxLen: int)
    requires g + 1 < |groups| && |groups[g + 1]| > 0
  {
    TotalLength(groups[g]) + |groups[g + 1][0]| > maxLen
  }

  /**
    `groups` cuts `pieces` into consecutive non-empty groups, each within the
    budget, and no group could have taken the first piece of the next one.
   */
  predicate IsGreedyPartition(groups: seq<seq<string>>, pieces: seq<string>, maxLen: int)
  {
    && Flatten(groups) == pieces
    && (forall g :: 0 <= g < |groups| ==> |groups[g]| > 0 && TotalLength(groups[g]) <= maxLen)
    && (forall g :: 0 <= g < |groups| - 1 ==> Overflows(groups, g, maxLen))
  }

  /** The number of leading pieces whose summed length stays within `budget`. */
  function Fits(pieces: seq<string>, budget: int): (k: nat)
    ensures k <= |pieces|
    ensures k == 0 || TotalLength(pieces[..k]) <= budget
    ensures k < |pieces| ==> TotalLength(pieces[..k + 1]) > budget
    decreases |pieces|
  {
    if |pieces| == 0 || |pieces[0]| > budget then
      assert pieces != [] ==> pieces[..1] == [pieces[0]];
      0
    else
      var k' := Fits(pieces[1..], budget - |pieces[0]|);
      assert pieces[..k' + 1] == [pieces[0]] + pieces[1..][..k'];
      assert k' < |pieces| - 1 ==> pieces[..k' + 2] == [pieces[0]] + pieces[1..][..k' + 1];
      1 + k'
  }

  /** The greedy grouping: each group takes as many pieces as fit, then the rest is grouped alike. */
  function GreedyGroups(pieces: seq<string>, maxLen: int): (groups: seq<seq<string>>)
    requires AllFit(pieces, maxLen)
    ensures |groups| == 0 <==> |pieces| == 0
    decreases |pieces|
  {
    if |pieces| == 0 then []
    else
      var k := Fits(pieces, maxLen);
      assert pieces[..1] == [pieces[0]];
      AllFitSuffix(pieces, maxLen, k);
      [pieces[..k]] + GreedyGroups(pieces[k..], maxLen)
  }

  /** The greedy grouping is a greedy partition. */
  lemma {:induction false} GreedyGroupsArePartition(pieces: seq<string>, maxLen: int)
    requires AllFit(pieces, maxLen)
    ensures IsGreedyPartition(GreedyGroups(pieces, maxLen), pieces, maxLen)
    decreases |pieces|
  {
    if |pieces| > 0 {
      var k := Fits(pieces, maxLen);
      assert pieces[..1] == [pieces[0]];
      AllFitSuffix(pieces, maxLen, k);
      GreedyGroupsArePartition(pieces[k..], maxLen);
      GreedyCons(pieces, maxLen, k, GreedyGroups(pieces[k..], maxLen));
    }
  }

  /** A maximal fitting prefix followed by a greedy partition of the rest is a greedy partition. */
  lemma GreedyCons(pieces: seq<string>, maxLen: int, k: nat, tail: seq<seq<string>>)
    requires 0 < k <= |pieces| && TotalLength(pieces[..k]) <= maxLen
    requires k < |pieces| ==> TotalLength(pieces[..k + 1]) > maxLen
    requires IsGreedyPartition(tail, pieces[k..], maxLen)
    requires |tail| == 0 <==> k == |pieces|
    ensures IsGreedyPartition([pieces[..k]] + tail, pieces, maxLen)
  {
    var groups := [pieces[..k]] + tail;
    assert groups[1..] == tail;
    assert pieces[..k] + pieces[k..] == pieces;
    assert forall g :: 1 <= g < |groups| - 1 ==> Overflows(groups, g, maxLen) by {
      forall g | 1 <= g < |groups| - 1 ensures Overflows(groups, g, maxLen) {
        assert Overflows(tail, g - 1, maxLen);
      }
    }
    if |tail| > 0 {
      assert Flatten(tail)[0] == tail[0][0];
      TotalLengthSnoc(pieces, k);
    }
  }

  /** The first group of a greedy partition is a prefix, and the remaining groups partition the rest greedily. */
  lemma GreedyPartitionTail(groups: seq<seq<string>>, pieces: seq<string>, maxLen: int)
    requires IsGreedyPartition(groups, pieces, maxLen) && |groups| > 0
    ensures |groups[0]| <= |pieces| && groups[0] == pieces[..|groups[0]|]
    ensures IsGreedyPartition(groups[1..], pieces[|groups[0]|..], maxLen)
    ensures |groups| > 1 <==> |groups[0]| < |pieces|
    ensures |groups| > 1 ==> groups[1][0] == pieces[|groups[0]|]
  {
    var rest := groups[1..];
    assert pieces == groups[0] + Flatten(rest);
    assert forall g :: 0 <= g < |rest| - 1 ==> Overflows(rest, g, maxLen) by {
      forall g | 0 <= g < |rest| - 1 ensures Overflows(rest, g, maxLen) {
        assert Overflows(groups, g + 1, maxLen);
      }
    }
    if |groups| > 1 {
      assert Flatten(rest) == rest[0] + Flatten(rest[1..]);
    }
  }

  /** There is only one greedy partition of a list of pieces. */
  lemma {:induction false} GreedyPartitionUnique(a: seq<seq<string>>, b: seq<seq<string>>, pieces: seq<string>, maxLen: int)
    requires IsGreedyPartition(a, pieces, maxLen) && IsGreedyPartition(b, pieces, maxLen)
    ensures a == b
    decreases |pieces|
  {
    if |a| == 0 || |b| == 0 {
      if |a| > 0 {
        GreedyPartitionTail(a, pieces, maxLen);
      } else if |b| > 0 {
        GreedyPartitionTail(b, pieces, maxLen);
      }
    } else {
      GreedyPartitionTail(a, pieces, maxLen);
      GreedyPartitionTail(b, pieces, maxLen);
      var la, lb := |a[0]|, |b[0]|;
      if la < lb {
        FirstGroupIsMaximal(a, b, pieces, maxLen);
      } else if lb < la {
        FirstGroupIsMaximal(b, a, pieces, maxLen);
      }
      GreedyPartitionUnique(a[1..], b[1..], pieces[la..], maxLen);
      assert a == [a[0]] + a[1..];
      assert b == [b[0]] + b[1..];
    }
  }

  /** A greedy first group is never shorter than the first group of another valid partition. */
  lemma FirstGroupIsMaximal(a: seq<seq<string>>, b: seq<seq<string>>, pieces: seq<string>, maxLen: int)
    requires IsGreedyPartition(a, pieces, maxLen) && IsGreedyPartition(b, pieces, maxLen)
    requires |a| > 0 && |b| > 0
    ensures |a[0]| >= |b[0]|
  {
    GreedyPartitionTail(a, pieces, maxLen);
    GreedyPartitionTail(b, pieces, maxLen);
    var la, lb := |a[0]|, |b[0]|;
    if la < lb {
      assert Overflows(a, 0, maxLen);
      TotalLengthSnoc(pieces, la);
      TotalLengthPrefixMonotone(pieces, la + 1, lb);
      assert false;
    }
  }

  /** One fragment: its lead, the joined group, the closing string. */
  function Fragment(lead: string, group: seq<string>, closing: string): string
  {
    lead + Join(group) + closing
  }

  /** The fragments of a grouping: the first led by `lead`, every later one by the re-opening string. */
  function Frame(groups: seq<seq<string>>, lead: string, closing: string, reopening: string): (r: seq<string>)
  {
    seq(|groups|, g requires 0 <= g < |groups| => Fragment(if g == 0 then lead else reopening, groups[g], closing))
  }

  /** The fragments of a grouping except the last, which is still under construction. */
  function CompletedFrames(groups: seq<seq<string>>, lead: string, closing: string, reopening: string): seq<string>
  {
    if |groups| == 0 then [] else Frame(groups, lead, closing, reopening)[..|groups| - 1]
  }

  // ---------------------------------------------------------------------------
  // The loop computes the greedy partition
  // ---------------------------------------------------------------------------

  /** Pieces that keep the counter within the budget are appended to the current fragment, no cut. */
  lemma {:induction false} PackAbsorbs(st: Packer, pieces: seq<string>, maxLen: int, closing: string, reopening: string, k: nat)
    requires k <= |pieces| && st.length + TotalLength(pieces[..k]) <= maxLen
    ensures Pack(st, pieces, maxLen, closing, reopening) ==
      Pack(Packer(st.yielded, st.current + pieces[..k], st.length + TotalLength(pieces[..k])), pieces[k..], maxLen, closing, reopening)
    decreases k
  {
    if k == 0 {
      assert st.current + pieces[..0] == st.current;
      assert pieces[0..] == pieces;
    } else {
      var p := pieces[0];
      assert pieces[..k] == [p] + pieces[1..][..k - 1];
      var st1 := Packer(st.yielded, st.current + [p], st.length + |p|);
      PackAbsorbs(st1, pieces[1..], maxLen, closing, reopening, k - 1);
      assert st.current + [p] + pieces[1..][..k - 1] == st.current + pieces[..k];
      assert pieces[1..][k - 1..] == pieces[k..];
    }
  }

  /** The pieces of `rest` that still fit after the group `g` join the current fragment. */
  lemma PackAbsorbsGroup(yielded: seq<string>, lead: seq<string>, g: seq<string>, rest: seq<string>,
                         maxLen: int, closing: string, reopening: string)
    requires TotalLength(g) <= maxLen
    ensures var k := Fits(rest, maxLen - TotalLength(g));
      Pack(Packer(yielded, lead + g, TotalLength(g)), rest, maxLen, closing, reopening)
      == Pack(Packer(yielded, lead + (g + rest[..k]), TotalLength(g + rest[..k])), rest[k..], maxLen, closing, reopening)
  {
    var k := Fits(rest, maxLen - TotalLength(g));
    assert TotalLength(g) + TotalLength(rest[..k]) <= maxLen by {
      if k == 0 {
        assert rest[..k] == [];
      }
    }
    PackAbsorbs(Packer(yielded, lead + g, TotalLength(g)), rest, maxLen, closing, reopening, k);
    TotalLengthAppend(g, rest[..k]);
    AppendAssoc(lead, g, rest[..k]);
  }

  /** Counting leading pieces after a group already within the budget. */
  lemma {:induction false} FitsConcat(a: seq<string>, rest: seq<string>, budget: int)
    requires TotalLength(a) <= budget
    ensures Fits(a + rest, budget) == |a| + Fits(rest, budget - TotalLength(a))
    decreases |a|
  {
    if |a| == 0 {
      assert a + rest == rest;
    } else {
      assert (a + rest)[0] == a[0];
      assert (a + rest)[1..] == a[1..] + rest;
      FitsConcat(a[1..], rest, budget - |a[0]|);
    }
  }

  /** Counting leading pieces of a prefix that contains all of them. */
  lemma {:induction false} FitsPrefix(s: seq<string>, n: nat, budget: int)
    requires Fits(s, budget) <= n <= |s|
    ensures Fits(s[..n], budget) == Fits(s, budget)
    decreases |s|
  {
    if |s| > 0 && n > 0 && |s[0]| <= budget {
      assert s[..n][0] == s[0];
      assert s[..n][1..] == s[1..][..n - 1];
      FitsPrefix(s[1..], n - 1, budget - |s[0]|);
    }
  }

  /** A piece that fits alone but overflows the counter cuts: the fragment is closed and the piece opens the next one. */
  lemma PackCuts(st: Packer, pieces: seq<string>, maxLen: int, closing: string, reopening: string)
    requires |pieces| > 0 && |pieces[0]| <= maxLen < st.length + |pieces[0]|
    ensures Pack(st, pieces, maxLen, closing, reopening) ==
      Pack(Packer(st.yielded + [Join(st.current) + closing], [reopening] + [pieces[0]], TotalLength([pieces[0]])),
           pieces[1..], maxLen, closing, reopening)
  {
    assert [reopening] + [pieces[0]] == [reopening, pieces[0]];
    assert TotalLength([pieces[0]]) == |pieces[0]|;
  }

  /** After a group `g` within the budget, the first greedy group extends `g` by the pieces that still fit. */
  lemma GreedyFirstGroup(g: seq<string>, rest: seq<string>, maxLen: int)
    requires |g| > 0 && TotalLength(g) <= maxLen && AllFit(g + rest, maxLen)
    ensures var k := Fits(rest, maxLen - TotalLength(g));
      && AllFit(rest[k..], maxLen)
      && GreedyGroups(g + rest, maxLen) == [g + rest[..k]] + GreedyGroups(rest[k..], maxLen)
  {
    var k := Fits(rest, maxLen - TotalLength(g));
    FitsConcat(g, rest, maxLen);
    SliceConcat(g, rest, k);
    GreedyGroupsStep(g + rest, g + rest[..k], rest[k..], maxLen);
  }

  /** One step of the greedy grouping, for a first group and a remainder given by name. */
  lemma {:induction false} GreedyGroupsStep(pieces: seq<string>, first: seq<string>, tail: seq<string>, maxLen: int)
    requires |pieces| > 0 && AllFit(pieces, maxLen)
    requires pieces[..Fits(pieces, maxLen)] == first && pieces[Fits(pieces, maxLen)..] == tail
    ensures AllFit(tail, maxLen)
    ensures GreedyGroups(pieces, maxLen) == [first] + GreedyGroups(tail, maxLen)
  {
    AllFitSuffix(pieces, maxLen, Fits(pieces, maxLen));
  }

  /** Every suffix of a list whose pieces all fit has pieces that all fit. */
  lemma AllFitSuffix(pieces: seq<string>, maxLen: int, n: nat)
    requires n <= |pieces| && AllFit(pieces, maxLen)
    ensures AllFit(pieces[n..], maxLen)
  {
    AllFitMeans(pieces, maxLen);
    AllFitMeans(pieces[n..], maxLen);
    assert forall i :: 0 <= i < |pieces| - n ==> pieces[n..][i] == pieces[n + i];
  }

  /** Framing a list of groups: the first fragment takes the lead, the others the re-opening string. */
  lemma FrameCons(group: seq<string>, groups: seq<seq<string>>, lead: string, closing: string, reopening: string)
    ensures Frame([group] + groups, lead, closing, reopening)
         == [Fragment(lead, group, closing)] + Frame(groups, reopening, closing, reopening)
  {
    var all := [group] + groups;
    var F := Frame(all, lead, closing, reopening);
    var F' := Frame(groups, reopening, closing, reopening);
    forall i | 0 <= i < |F'| ensures F[i + 1] == F'[i] {
      assert all[i + 1] == groups[i];
    }
    assert F == [F[0]] + F';
  }

  /**
    From a state whose current fragment is `lead` followed by the non-empty
    group `g`, the loop produces exactly the framed greedy groups of `g + rest`.
   */
  lemma {:induction false} PackIsGreedy(yielded: seq<string>, lead: seq<string>, g: seq<string>, rest: seq<string>,
                                        maxLen: int, closing: string, reopening: string)
    requires |g| > 0 && TotalLength(g) <= maxLen && AllFit(g + rest, maxLen)
    ensures Pack(Packer(yielded, lead + g, TotalLength(g)), rest, maxLen, closing, reopening)
         == Done(yielded + Frame(GreedyGroups(g + rest, maxLen), Join(lead), closing, reopening))
    decreases |rest|, 2
  {
    var k := Fits(rest, maxLen - TotalLength(g));
    PackAbsorbsGroup(yielded, lead, g, rest, maxLen, closing, reopening);
    if k == |rest| {
      PackLastGroup(yielded, lead, g, rest, maxLen, closing, reopening);
    } else {
      PackCutBranch(yielded, lead, g, rest, maxLen, closing, reopening);
    }
  }

  /** When all remaining pieces join the current group, the final flush emits it as the last fragment. */
  lemma PackLastGroup(yielded: seq<string>, lead: seq<string>, g: seq<string>, rest: seq<string>,
                      maxLen: int, closing: string, reopening: string)
    requires |g| > 0 && TotalLength(g) <= maxLen && AllFit(g + rest, maxLen)
    requires Fits(rest, maxLen - TotalLength(g)) == |rest|
    ensures var k := Fits(rest, maxLen - TotalLength(g));
      Pack(Packer(yielded, lead + (g + rest[..k]), TotalLength(g + rest[..k])), rest[k..], maxLen, closing, reopening)
      == Done(yielded + Frame(GreedyGroups(g + rest, maxLen), Join(lead), closing, reopening))
  {
    assert rest[..|rest|] == rest && rest[|rest|..] == [];
    JoinAppend(lead, g + rest);
    GreedyFramesLast(g, rest, maxLen, Join(lead), closing, reopening);
  }

  /** When some remaining piece does not join the current group, the loop cuts there and goes on greedily. */
  lemma {:induction false} PackCutBranch(yielded: seq<string>, lead: seq<string>, g: seq<string>, rest: seq<string>,
                                         maxLen: int, closing: string, reopening: string)
    requires |g| > 0 && TotalLength(g) <= maxLen && AllFit(g + rest, maxLen)
    requires Fits(rest, maxLen - TotalLength(g)) < |rest|
    ensures var k := Fits(rest, maxLen - TotalLength(g));
      Pack(Packer(yielded, lead + (g + rest[..k]), TotalLength(g + rest[..k])), rest[k..], maxLen, closing, reopening)
      == Done(yielded + Frame(GreedyGroups(g + rest, maxLen), Join(lead), closing, reopening))
    decreases |rest|, 1
  {
    var k := Fits(rest, maxLen - TotalLength(g));
    var group := g + rest[..k];
    CutPosition(g, rest, maxLen, k);
    GreedyFramesCut(g, rest, maxLen, Join(lead), closing, reopening);
    PackCutsThenGreedy(yielded, lead, group, rest[k..], maxLen, closing, reopening);
    AppendAssoc(yielded, [Fragment(Join(lead), group, closing)],
                Frame(GreedyGroups(rest[k..], maxLen), reopening, closing, reopening));
  }

  /** Where the loop cuts: the extended group is within the budget and the next piece overflows it. */
  lemma CutPosition(g: seq<string>, rest: seq<string>, maxLen: int, k: nat)
    requires |g| > 0 && TotalLength(g) <= maxLen
    requires k == Fits(rest, maxLen - TotalLength(g)) && k < |rest|
    ensures TotalLength(g + rest[..k]) <= maxLen
    ensures TotalLength(g + rest[..k]) + |rest[k..][0]| > maxLen
  {
    TotalLengthSnoc(rest, k);
    TotalLengthAppend(g, rest[..k]);
  }

  /**
    When the next piece overflows the current group, the loop closes the
    fragment and continues greedily from a fragment holding that piece.
   */
  lemma {:induction false} PackCutsThenGreedy(yielded: seq<string>, lead: seq<string>, group: seq<string>, rest: seq<string>,
                                              maxLen: int, closing: string, reopening: string)
    requires |group| > 0 && TotalLength(group) <= maxLen && AllFit(rest, maxLen)
    requires |rest| > 0 && TotalLength(group) + |rest[0]| > maxLen
    ensures Pack(Packer(yielded, lead + group, TotalLength(group)), rest, maxLen, closing, reopening)
         == Done(yielded + [Fragment(Join(lead), group, closing)] + Frame(GreedyGroups(rest, maxLen), reopening, closing, reopening))
    decreases |rest|, 0
  {
    var piece := rest[0];
    var frag := Join(lead + group) + closing;
    PackCuts(Packer(yielded, lead + group, TotalLength(group)), rest, maxLen, closing, reopening);
    assert [piece] + rest[1..] == rest;
    assert TotalLength([piece]) == |piece|;
    PackIsGreedy(yielded + [frag], [reopening], [piece], rest[1..], maxLen, closing, reopening);
    assert Join([reopening]) == reopening;
    JoinAppend(lead, group);
  }

  /** The framed greedy groups when all of `rest` joins the group `g`. */
  lemma GreedyFramesLast(g: seq<string>, rest: seq<string>, maxLen: int, lead: string, closing: string, reopening: string)
    requires |g| > 0 && TotalLength(g) <= maxLen && AllFit(g + rest, maxLen)
    requires Fits(rest, maxLen - TotalLength(g)) == |rest|
    ensures Frame(GreedyGroups(g + rest, maxLen), lead, closing, reopening) == [Fragment(lead, g + rest, closing)]
  {
    GreedyFirstGroup(g, rest, maxLen);
    assert rest[..|rest|] == rest;
    assert rest[|rest|..] == [];
    FrameCons(g + rest, [], lead, closing, reopening);
  }

  /** The framed greedy groups when a cut follows the pieces of `rest` that join the group `g`. */
  lemma GreedyFramesCut(g: seq<string>, rest: seq<string>, maxLen: int, lead: string, closing: string, reopening: string)
    requires |g| > 0 && TotalLength(g) <= maxLen && AllFit(g + rest, maxLen)
    requires Fits(rest, maxLen - TotalLength(g)) < |rest|
    ensures var k := Fits(rest, maxLen - TotalLength(g));
      AllFit(rest[k..], maxLen) &&
      Frame(GreedyGroups(g + rest, maxLen), lead, closing, reopening)
        == [Fragment(lead, g + rest[..k], closing)] + Frame(GreedyGroups(rest[k..], maxLen), reopening, closing, reopening)
  {
    var k := Fits(rest, maxLen - TotalLength(g));
    GreedyFirstGroup(g, rest, maxLen);
    FrameCons(g + rest[..k], GreedyGroups(rest[k..], maxLen), lead, closing, reopening);
  }

  /** The prefix of `rest` that a failing piece at `f` leaves for grouping. */
  lemma GreedyFirstGroupBeforeFailure(g: seq<string>, rest: seq<string>, maxLen: int, f: nat)
    requires |g| > 0 && TotalLength(g) <= maxLen
    requires f < |rest| && |rest[f]| > maxLen && AllFit(g + rest[..f], maxLen)
    ensures var k := Fits(rest, maxLen - TotalLength(g));
      && k <= f
      && AllFit(rest[k..f], maxLen)
      && GreedyGroups(g + rest[..f], maxLen) == [g + rest[..k]] + GreedyGroups(rest[k..f], maxLen)
  {
    var k := Fits(rest, maxLen - TotalLength(g));
    CutBeforeFailurePosition(g, rest, maxLen, f, k);
    SliceConcat(g, rest[..f], k);
    assert rest[..f][..k] == rest[..k] && rest[..f][k..] == rest[k..f];
    GreedyGroupsStep(g + rest[..f], g + rest[..k], rest[k..f], maxLen);
  }

  /** Where the first greedy group of `g + rest[..f]` ends, when `rest[f]` is oversized. */
  lemma CutBeforeFailurePosition(g: seq<string>, rest: seq<string>, maxLen: int, f: nat, k: nat)
    requires |g| > 0 && TotalLength(g) <= maxLen
    requires f < |rest| && |rest[f]| > maxLen
    requires k == Fits(rest, maxLen - TotalLength(g))
    ensures k <= f
    ensures Fits(g + rest[..f], maxLen) == |g| + k
  {
    var budget := maxLen - TotalLength(g);
    assert k <= f by {
      if k > f {
        TotalLengthSnoc(rest, f);
        TotalLengthPrefixMonotone(rest, f + 1, k);
      }
    }
    FitsPrefix(rest, f, budget);
    FitsConcat(g, rest[..f], maxLen);
  }

  /** Dropping the last fragment commutes with framing a first group in front. */
  lemma FrameConsButLast(group: seq<string>, groups: seq<seq<string>>, lead: string, closing: string, reopening: string)
    requires |groups| > 0
    ensures CompletedFrames([group] + groups, lead, closing, reopening)
         == [Fragment(lead, group, closing)] + CompletedFrames(groups, reopening, closing, reopening)
  {
    FrameCons(group, groups, lead, closing, reopening);
  }

  /**
    From the same kind of state, when `rest[f]` is the first piece longer than
    the budget, the loop fails on it after producing the completed fragments of
    the greedy groups of `g + rest[..f]`.
   */
  lemma {:induction false} PackFailsAt(yielded: seq<string>, lead: seq<string>, g: seq<string>, rest: seq<string>,
                                       maxLen: int, closing: string, reopening: string, f: nat)
    requires |g| > 0 && TotalLength(g) <= maxLen
    requires f < |rest| && |rest[f]| > maxLen && AllFit(g + rest[..f], maxLen)
    ensures Pack(Packer(yielded, lead + g, TotalLength(g)), rest, maxLen, closing, reopening)
         == Failed(yielded + CompletedFrames(GreedyGroups(g + rest[..f], maxLen), Join(lead), closing, reopening),
                   PieceTooLong(|rest[f]|, maxLen))
    decreases |rest|, 2
  {
    var k := Fits(rest, maxLen - TotalLength(g));
    GreedyFirstGroupBeforeFailure(g, rest, maxLen, f);
    PackAbsorbsGroup(yielded, lead, g, rest, maxLen, closing, reopening);
    if k == f {
      PackFailsHere(yielded, lead, g, rest, maxLen, closing, reopening, f);
    } else {
      PackFailsCutBranch(yielded, lead, g, rest, maxLen, closing, reopening, f, k);
    }
  }

  /** When the oversized piece comes right after the pieces that join the current group, the loop fails on it. */
  lemma PackFailsHere(yielded: seq<string>, lead: seq<string>, g: seq<string>, rest: seq<string>,
                      maxLen: int, closing: string, reopening: string, f: nat)
    requires |g| > 0 && TotalLength(g) <= maxLen
    requires f < |rest| && |rest[f]| > maxLen && AllFit(g + rest[..f], maxLen)
    requires Fits(rest, maxLen - TotalLength(g)) == f
    ensures var k := Fits(rest, maxLen - TotalLength(g));
      Pack(Packer(yielded, lead + (g + rest[..k]), TotalLength(g + rest[..k])), rest[k..], maxLen, closing, reopening)
      == Failed(yielded + CompletedFrames(GreedyGroups(g + rest[..f], maxLen), Join(lead), closing, reopening),
                PieceTooLong(|rest[f]|, maxLen))
  {
    GreedyFirstGroupBeforeFailure(g, rest, maxLen, f);
    assert rest[f..][0] == rest[f];
    assert rest[f..f] == [];
  }

  /** When a cut comes before the oversized piece, the loop cuts there and fails later. */
  lemma {:induction false} PackFailsCutBranch(yielded: seq<string>, lead: seq<string>, g: seq<string>, rest: seq<string>,
                                              maxLen: int, closing: string, reopening: string, f: nat, k: nat)
    requires |g| > 0 && TotalLength(g) <= maxLen
    requires f < |rest| && |rest[f]| > maxLen && AllFit(g + rest[..f], maxLen)
    requires k == Fits(rest, maxLen - TotalLength(g)) && k < f
    ensures Pack(Packer(yielded, lead + (g + rest[..k]), TotalLength(g + rest[..k])), rest[k..], maxLen, closing, reopening)
         == Failed(yielded + CompletedFrames(GreedyGroups(g + rest[..f], maxLen), Join(lead), closing, reopening),
                   PieceTooLong(|rest[f]|, maxLen))
    decreases |rest|, 1
  {
    var group := g + rest[..k];
    GreedyFirstGroupBeforeFailure(g, rest, maxLen, f);
    var tail := GreedyGroups(rest[k..f], maxLen);
    FrameConsButLast(group, tail, Join(lead), closing, reopening);
    CutBeforeFailure(g, rest, maxLen, f, k);
    PackCutsThenFails(yielded, lead, group, rest[k..], maxLen, closing, reopening, f - k);
    AppendAssoc(yielded, [Fragment(Join(lead), group, closing)], CompletedFrames(tail, reopening, closing, reopening));
  }

  /** A cut before the first oversized piece leaves the loop in the state `PackCutsThenFails` expects. */
  lemma CutBeforeFailure(g: seq<string>, rest: seq<string>, maxLen: int, f: nat, k: nat)
    requires |g| > 0 && TotalLength(g) <= maxLen
    requires f < |rest| && |rest[f]| > maxLen
    requires k == Fits(rest, maxLen - TotalLength(g)) && k < f && AllFit(rest[k..f], maxLen)
    ensures |g + rest[..k]| > 0 && TotalLength(g + rest[..k]) <= maxLen
    ensures 0 < f - k < |rest[k..]| && |rest[k..][f - k]| > maxLen
    ensures rest[k..][..f - k] == rest[k..f] && AllFit(rest[k..][..f - k], maxLen)
    ensures TotalLength(g + rest[..k]) + |rest[k..][0]| > maxLen
  {
    CutPosition(g, rest, maxLen, k);
    assert rest[k..][f - k] == rest[f] && rest[k..][..f - k] == rest[k..f];
  }

  /**
    When the next piece overflows the current group and `rest[f]` is the first
    oversized piece, the loop closes the fragment and fails later.
   */
  lemma {:induction false} PackCutsThenFails(yielded: seq<string>, lead: seq<string>, group: seq<string>, rest: seq<string>,
                                             maxLen: int, closing: string, reopening: string, f: nat)
    requires |group| > 0 && TotalLength(group) <= maxLen
    requires 0 < f < |rest| && |rest[f]| > maxLen && AllFit(rest[..f], maxLen)
    requires TotalLength(group) + |rest[0]| > maxLen
    ensures Pack(Packer(yielded, lead + group, TotalLength(group)), rest, maxLen, closing, reopening)
         == Failed(yielded + [Fragment(Join(lead), group, closing)]
                     + CompletedFrames(GreedyGroups(rest[..f], maxLen), reopening, closing, reopening),
                   PieceTooLong(|rest[f]|, maxLen))
    decreases |rest|, 0
  {
    var piece := rest[0];
    var frag := Join(lead + group) + closing;
    assert |piece| <= maxLen by {
      assert rest[..f][0] == piece;
    }
    PackCuts(Packer(yielded, lead + group, TotalLength(group)), rest, maxLen, closing, reopening);
    assert [piece] + rest[1..][..f - 1] == rest[..f];
    assert rest[1..][f - 1] == rest[f];
    assert TotalLength([piece]) == |piece|;
    PackFailsAt(yielded + [frag], [reopening], [piece], rest[1..], maxLen, closing, reopening, f - 1);
    assert Join([reopening]) == reopening;
    JoinAppend(lead, group);
  }

  // ---------------------------------------------------------------------------
  // What a split produces
  // ---------------------------------------------------------------------------

  /** When every piece fits, the split yields the framed greedy partition. */
  lemma SplitIsGreedy(pieces: seq<string>, maxLen: int, closing: string, reopening: string)
    requires AllFit(pieces, maxLen)
    ensures SplitPieces(pieces, maxLen, closing, reopening) == Done(Frame(GreedyGroups(pieces, maxLen), "", closing, reopening))
  {
    if |pieces| > 0 {
      var p := pieces[0];
      assert Pack(Start, pieces, maxLen, closing, reopening)
          == Pack(Packer([], [] + [p], |p|), pieces[1..], maxLen, closing, reopening);
      assert TotalLength([p]) == |p|;
      assert [p] + pieces[1..] == pieces;
      PackIsGreedy([], [], [p], pieces[1..], maxLen, closing, reopening);
    }
  }

  /**
    When `pieces[f]` is the first piece longer than the budget, the split fails
    on it, after producing all fragments of the pieces before it but the last.
   */
  lemma SplitFailsAtFirstOversized(pieces: seq<string>, maxLen: int, closing: string, reopening: string, f: nat)
    requires f < |pieces| && |pieces[f]| > maxLen && AllFit(pieces[..f], maxLen)
    ensures SplitPieces(pieces, maxLen, closing, reopening)
         == Failed(CompletedFrames(GreedyGroups(pieces[..f], maxLen), "", closing, reopening), PieceTooLong(|pieces[f]|, maxLen))
  {
    if f > 0 {
      var p := pieces[0];
      assert |p| <= maxLen by { assert pieces[..f][0] == p; }
      assert Pack(Start, pieces, maxLen, closing, reopening)
          == Pack(Packer([], [] + [p], |p|), pieces[1..], maxLen, closing, reopening);
      assert TotalLength([p]) == |p|;
      assert [p] + pieces[1..][..f - 1] == pieces[..f];
      PackFailsAt([], [], [p], pieces[1..], maxLen, closing, reopening, f - 1);
    }
  }

  /** The index of the first piece longer than the budget. */
  lemma {:induction false} FirstOversized(pieces: seq<string>, maxLen: int) returns (f: nat)
    requires !AllFit(pieces, maxLen)
    ensures f < |pieces| && |pieces[f]| > maxLen && AllFit(pieces[..f], maxLen)
    decreases |pieces|
  {
    if |pieces[0]| > maxLen {
      f := 0;
    } else {
      var f' := FirstOversized(pieces[1..], maxLen);
      f := f' + 1;
      assert pieces[..f] == [pieces[0]] + pieces[1..][..f'];
    }
  }

  /**
    A split fails exactly when some piece is longer than the budget, and then
    always for that reason: the empty-counter failure never happens.
   */
  lemma SplitFailsIffOversized(pieces: seq<string>, maxLen: int, closing: string, reopening: string)
    ensures SplitPieces(pieces, maxLen, closing, reopening).Failed? <==> exists i :: 0 <= i < |pieces| && |pieces[i]| > maxLen
    ensures SplitPieces(pieces, maxLen, closing, reopening).Failed? ==>
              SplitPieces(pieces, maxLen, closing, reopening).error.PieceTooLong?
  {
    AllFitMeans(pieces, maxLen);
    if AllFit(pieces, maxLen) {
      SplitIsGreedy(pieces, maxLen, closing, reopening);
    } else {
      var f := FirstOversized(pieces, maxLen);
      SplitFailsAtFirstOversized(pieces, maxLen, closing, reopening, f);
    }
  }

  /**
    Every fragment of a successful split holds at most the budget in original
    pieces, so its length is bounded by the budget plus its framing; and a
    fragment plus the first piece of the next one exceeds the budget.
   */
  lemma SplitBoundAndGreedy(pieces: seq<string>, maxLen: int, closing: string, reopening: string)
    requires SplitPieces(pieces, maxLen, closing, reopening).Done?
    ensures var frags := SplitPieces(pieces, maxLen, closing, reopening).fragments;
      forall g :: 0 <= g < |frags| ==>
        |frags[g]| <= maxLen + |closing| + (if g == 0 then 0 else |reopening|)
    ensures var frags := SplitPieces(pieces, maxLen, closing, reopening).fragments;
      exists groups :: IsGreedyPartition(groups, pieces, maxLen) && frags == Frame(groups, "", closing, reopening)
  {
    SplitFailsIffOversized(pieces, maxLen, closing, reopening);
    AllFitMeans(pieces, maxLen);
    SplitIsGreedy(pieces, maxLen, closing, reopening);
    GreedyGroupsArePartition(pieces, maxLen);
  }

  /** With nothing left open at the end of the document, every fragment fits the budget. */
  lemma SplitWithoutFramingFits(pieces: seq<string>, maxLen: int)
    requires SplitPieces(pieces, maxLen, "", "").Done?
    ensures forall f :: f in SplitPieces(pieces, maxLen, "", "").fragments ==> |f| <= maxLen
  {
    SplitBoundAndGreedy(pieces, maxLen, "", "");
  }

  /** No fragments for no pieces; at least one otherwise. */
  lemma SplitFragmentCount(pieces: seq<string>, maxLen: int, closing: string, reopening: string)
    requires SplitPieces(pieces, maxLen, closing, reopening).Done?
    ensures |SplitPieces(pieces, maxLen, closing, reopening).fragments| == 0 <==> |pieces| == 0
  {
    SplitFailsIffOversized(pieces, maxLen, closing, reopening);
    AllFitMeans(pieces, maxLen);
    SplitIsGreedy(pieces, maxLen, closing, reopening);
  }

  // ---------------------------------------------------------------------------
  // Reconstruction
  // ---------------------------------------------------------------------------

  /** The lead of fragment g: nothing for the first, the re-opening string after a cut. */
  function LeadOf(g: nat, reopening: string): string
  {
    if g == 0 then "" else reopening
  }

  /** `frag` starts with `lead` and ends with `closing`, without overlap. */
  predicate IsFramed(frag: string, lead: string, closing: string)
  {
    && |frag| >= |lead| + |closing|
    && frag[..|lead|] == lead
    && frag[|frag| - |closing|..] == closing
  }

  /** Every fragment carries its lead and the closing string. */
  predicate HasFraming(frags: seq<string>, closing: string, reopening: string)
  {
    forall g :: 0 <= g < |frags| ==> IsFramed(frags[g], LeadOf(g, reopening), closing)
  }

  /** The fragments with their leads and closing strings stripped. */
  function Unframe(frags: seq<string>, closing: string, reopening: string): (r: seq<string>)
    requires HasFraming(frags, closing, reopening)
    ensures |r| == |frags|
    ensures forall g :: 0 <= g < |frags| ==>
      LeadOf(g, reopening) + r[g] + closing == frags[g]
  {
    seq(|frags|, g requires 0 <= g < |frags| =>
      assert IsFramed(frags[g], LeadOf(g, reopening), closing);
      frags[g][|LeadOf(g, reopening)|..|frags[g]| - |closing|])
  }

  /**
    Every fragment of a successful split ends with the closing string and every
    fragment after the first starts with the re-opening string; stripping them
    and concatenating gives back the concatenation of all pieces.
   */
  lemma SplitReconstructs(pieces: seq<string>, maxLen: int, closing: string, reopening: string)
    requires SplitPieces(pieces, maxLen, closing, reopening).Done?
    ensures var frags := SplitPieces(pieces, maxLen, closing, reopening).fragments;
      HasFraming(frags, closing, reopening) && Join(Unframe(frags, closing, reopening)) == Join(pieces)
  {
    SplitFailsIffOversized(pieces, maxLen, closing, reopening);
    AllFitMeans(pieces, maxLen);
    SplitIsGreedy(pieces, maxLen, closing, reopening);
    GreedyGroupsArePartition(pieces, maxLen);
    var groups := GreedyGroups(pieces, maxLen);
    var frags := Frame(groups, "", closing, reopening);
    forall g | 0 <= g < |frags| ensures IsFramed(frags[g], LeadOf(g, reopening), closing) {
      var lead := LeadOf(g, reopening);
      assert frags[g] == lead + Join(groups[g]) + closing;
      assert frags[g][..|lead|] == lead;
      assert frags[g][|frags[g]| - |closing|..] == closing;
    }
    var u := Unframe(frags, closing, reopening);
    assert u == JoinEach(groups) by {
      forall g | 0 <= g < |frags| ensures u[g] == Join(groups[g]) {
        var lead := LeadOf(g, reopening);
        assert lead + u[g] + closing == lead + Join(groups[g]) + closing;
        assert (lead + u[g] + closing)[|lead|..|frags[g]| - |closing|] == u[g];
        assert (lead + Join(groups[g]) + closing)[|lead|..|frags[g]| - |closing|] == Join(groups[g]);
      }
    }
    JoinFlatten(groups);
  }

  // ---------------------------------------------------------------------------
  // Whole documents
  // ---------------------------------------------------------------------------

  /** A document splits exactly when every emitted piece, rendered, fits the budget. */
  lemma MessageFailsIffOversizedPiece(events: seq<Event>, maxLen: int)
    ensures SplitMessage(events, maxLen).Failed? <==>
      exists p :: p in Feed(events).result && |Render(p)| > maxLen
  {
    var h := Feed(events);
    var pieces := RenderAll(h.result);
    SplitFailsIffOversized(pieces, maxLen, CloseTags(h.stack), CurrentStructure(h.stack));
    if exists i :: 0 <= i < |pieces| && |pieces[i]| > maxLen {
      var i :| 0 <= i < |pieces| && |pieces[i]| > maxLen;
      assert h.result[i] in h.result;
    }
    if exists p :: p in h.result && |Render(p)| > maxLen {
      var p :| p in h.result && |Render(p)| > maxLen;
      var i :| 0 <= i < |h.result| && h.result[i] == p;
      assert |pieces[i]| > maxLen;
    }
  }

  /** Character data is never subdivided: a data run longer than the budget makes the split fail. */
  lemma OversizedDataFails(events: seq<Event>, maxLen: int, j: nat)
    requires j < |events| && events[j].Data? && |events[j].data| > maxLen
    ensures SplitMessage(events, maxLen).Failed?
    ensures SplitMessage(events, maxLen).error.PieceTooLong?
  {
    DataIsEmitted(events, j);
    MessageFailsIffOversizedPiece(events, maxLen);
    var h := Feed(events);
    SplitFailsIffOversized(RenderAll(h.result), maxLen, CloseTags(h.stack), CurrentStructure(h.stack));
  }

  /**
    When no tag is left open at the end of the document, the framing is empty:
    every fragment fits the budget and the fragments concatenate to the rendered result.
   */
  lemma BalancedMessageFits(events: seq<Event>, maxLen: int)
    requires Feed(events).stack == []
    requires SplitMessage(events, maxLen).Done?
    ensures forall f :: f in SplitMessage(events, maxLen).fragments ==> |f| <= maxLen
    ensures Join(SplitMessage(events, maxLen).fragments) == Join(RenderAll(Feed(events).result))
  {
    var pieces := RenderAll(Feed(events).result);
    EmptyStackFraming();
    SplitWithoutFramingFits(pieces, maxLen);
    SplitReconstructs(pieces, maxLen, "", "");
    var frags := SplitPieces(pieces, maxLen, "", "").fragments;
    assert Unframe(frags, "", "") == frags by {
      var u := Unframe(frags, "", "");
      forall g | 0 <= g < |frags| ensures u[g] == frags[g] {
        assert LeadOf(g, "") + u[g] + "" == frags[g];
      }
    }
  }
}
