/** How a bulk build shares keys out over nodes, by their sizes alone (the loops of
    `bulk_build_from_flat`). */
module Fanout {
  import opened Values
  import opened Nodes

  /** How many entries the leaf gets of which n, taking `bytes`, are in it already. */
  function Filled(es: seq<Entry>, n: nat, bytes: nat): (k: nat)
    requires n <= |es|
    ensures n <= k <= |es| && (n == 0 && es != [] ==> k > 0)
    decreases |es| - n
  {
    if n == |es| then n
    else
      var need := 2 + EncodedSize(es[n].key) + 8;
      if n > 0 && bytes + need > PAGE_SIZE then n else Filled(es, n + 1, bytes + need)
  }

  /** The first keys of the leaves. */
  function LeafHeads(es: seq<Entry>): (heads: seq<Value>)
    ensures heads == [] <==> es == []
    decreases |es|
  {
    if es == [] then [] else [es[0].key] + LeafHeads(es[Filled(es, 0, HEADER)..])
  }

  /** How many children the inner node gets over nodes with these least keys, of
      which n, taking `bytes`, are in it already. */
  function Taken(mins: seq<Value>, n: nat, bytes: nat): (k: nat)
    requires 1 <= n <= |mins|
    ensures n <= k <= |mins| && (n == 1 < |mins| ==> k > 1)
    decreases |mins| - n
  {
    if n == |mins| then n
    else
      var need := 2 + EncodedSize(mins[n]) + 8 + 4;
      if n > 1 && bytes + need > PAGE_SIZE then n else Taken(mins, n + 1, bytes + 6 + EncodedSize(mins[n]))
  }

  function Fan(mins: seq<Value>): (k: nat)
    requires mins != []
    ensures 1 <= k <= |mins| && (|mins| > 1 ==> k > 1)
  {
    Taken(mins, 1, 16)
  }

  /** The least keys of the nodes one level up. */
  function Heads(mins: seq<Value>): (heads: seq<Value>)
    ensures 2 * |heads| <= |mins| + 1
    decreases |mins|
  {
    if mins == [] then [] else [mins[0]] + Heads(mins[Fan(mins)..])
  }

  /** No node of the level up gets more separators than a page can count. */
  predicate Counted(mins: seq<Value>)
    decreases |mins|
  {
    mins != [] ==> Fan(mins) <= MAX_SEPARATORS + 1 && Counted(mins[Fan(mins)..])
  }

  /** No node of any level does. */
  predicate NoneCut(mins: seq<Value>)
    decreases |mins|
  {
    |mins| > 1 ==> Counted(mins) && NoneCut(Heads(mins))
  }

  /** No node of the level up is left with one child. */
  predicate Grouped(mins: seq<Value>)
    decreases |mins|
  {
    mins != [] ==> Fan(mins) >= 2 && Grouped(mins[Fan(mins)..])
  }

  /** No node of any level is. */
  predicate NoneAlone(mins: seq<Value>)
    decreases |mins|
  {
    |mins| > 1 ==> Grouped(mins) && NoneAlone(Heads(mins))
  }

  /** What is left of a list behind position i, one group further. */
  lemma NextGroup(mins: seq<Value>, i: nat)
    requires i < |mins|
    ensures var k := Fan(mins[i..]);
            && mins[i..][k..] == mins[i + k..]
            && (Counted(mins[i..]) <==> k <= MAX_SEPARATORS + 1 && Counted(mins[i + k..]))
            && (Grouped(mins[i..]) <==> k >= 2 && Grouped(mins[i + k..]))
            && Heads(mins[i..]) == [mins[i]] + Heads(mins[i + k..])
  {
    assert mins[i..][Fan(mins[i..])..] == mins[i + Fan(mins[i..])..];
  }

  lemma NextLeafHead(es: seq<Entry>, i: nat)
    requires i < |es|
    ensures var k := Filled(es[i..], 0, HEADER);
            LeafHeads(es[i..]) == [es[i].key] + LeafHeads(es[i + k..])
  {
    assert es[i..][Filled(es[i..], 0, HEADER)..] == es[i + Filled(es[i..], 0, HEADER)..];
  }

  lemma EndOfGroups(mins: seq<Value>, i: nat)
    requires i == |mins|
    ensures Counted(mins[i..]) && Grouped(mins[i..]) && Heads(mins[i..]) == []
  {
  }
}
