/** Lists of strings: concatenation (Python's `"".join`), summed length, flattening. */
module Strings {

  /** Concatenation of all parts, in order. */
  function Join(parts: seq<string>): (s: string)
    ensures |s| == TotalLength(parts)
  {
    if |parts| == 0 then "" else parts[0] + Join(parts[1..])
  }

  /** The sum of the lengths of all parts. */
  function TotalLength(parts: seq<string>): nat
  {
    if |parts| == 0 then 0 else |parts[0]| + TotalLength(parts[1..])
  }

  /** The concatenation of a list of lists. */
  function Flatten<T>(groups: seq<seq<T>>): seq<T>
  {
    if |groups| == 0 then [] else groups[0] + Flatten(groups[1..])
  }

  /** Each group joined into one string. */
  function JoinEach(groups: seq<seq<string>>): (r: seq<string>)
    ensures |r| == |groups|
    ensures forall g :: 0 <= g < |groups| ==> r[g] == Join(groups[g])
  {
    seq(|groups|, g requires 0 <= g < |groups| => Join(groups[g]))
  }

  lemma {:induction false} JoinAppend(a: seq<string>, b: seq<string>)
    ensures Join(a + b) == Join(a) + Join(b)
    decreases |a|
  {
    if |a| == 0 {
      assert a + b == b;
    } else {
      assert (a + b)[1..] == a[1..] + b;
      JoinAppend(a[1..], b);
    }
  }

  lemma TotalLengthAppend(a: seq<string>, b: seq<string>)
    ensures TotalLength(a + b) == TotalLength(a) + TotalLength(b)
  {
    JoinAppend(a, b);
  }

  /** Summed lengths of prefixes grow with the prefix. */
  lemma TotalLengthPrefixMonotone(s: seq<string>, i: nat, j: nat)
    requires i <= j <= |s|
    ensures TotalLength(s[..i]) <= TotalLength(s[..j])
  {
    assert s[..j] == s[..i] + s[i..j];
    TotalLengthAppend(s[..i], s[i..j]);
  }

  /** Extending a prefix by one element adds that element's length. */
  lemma TotalLengthSnoc(s: seq<string>, k: nat)
    requires k < |s|
    ensures TotalLength(s[..k + 1]) == TotalLength(s[..k]) + |s[k]|
  {
    assert s[..k + 1] == s[..k] + [s[k]];
    TotalLengthAppend(s[..k], [s[k]]);
  }

  lemma AppendAssoc<T>(a: seq<T>, b: seq<T>, c: seq<T>)
    ensures a + b + c == a + (b + c)
  {
  }

  /** Slicing a concatenation past its first part slices the second part. */
  lemma SliceConcat<T>(a: seq<T>, b: seq<T>, n: nat)
    requires n <= |b|
    ensures (a + b)[..|a| + n] == a + b[..n]
    ensures (a + b)[|a| + n..] == b[n..]
  {
    assert (a + b)[..|a| + n] == a + b[..n];
  }

  /** Joining group by group and then joining the results is joining the flattened list. */
  lemma {:induction false} JoinFlatten(groups: seq<seq<string>>)
    ensures Join(JoinEach(groups)) == Join(Flatten(groups))
    decreases |groups|
  {
    if |groups| > 0 {
      assert JoinEach(groups)[1..] == JoinEach(groups[1..]);
      JoinFlatten(groups[1..]);
      JoinAppend(groups[0], Flatten(groups[1..]));
    }
  }
}
