/**
 * The word graph of the segmentation engine (engine.go: getDAG).
 *
 * For each rune position k the graph lists, in ascending order, every end
 * position i for which the lower-cased runes k..i walk successfully through
 * the trie. Because Find also succeeds on proper prefixes of words, these
 * ends include prefixes that are not words themselves. The probes run to
 * the end of the text, not only up to the longest word.
 */
module Dag {
  import opened Strings
  import opened Dictionary

  /** The trie walk for the lower-cased runes k..i (inclusive) succeeds. */
  predicate Probe(d: Dict, runes: string, k: nat, i: nat)
    requires Valid(d) && k <= i < |runes|
  {
    Find(d, ToLower(runes[k..i + 1])).ok
  }

  predicate Ascending(s: seq<nat>) {
    forall a, b :: 0 <= a < b < |s| ==> s[a] < s[b]
  }

  /** The shape every graph row has: non-empty, ascending, inside [k, n-1]. */
  predicate ValidRow(row: seq<nat>, k: nat, n: nat) {
    |row| > 0 && Ascending(row) && forall j :: 0 <= j < |row| ==> k <= row[j] < n
  }

  predicate ValidDag(dag: seq<seq<nat>>, n: nat) {
    |dag| == n && forall k :: 0 <= k < n ==> ValidRow(dag[k], k, n)
  }

  /** No probe from k succeeds. */
  predicate NoProbe(d: Dict, runes: string, k: nat)
    requires Valid(d) && k < |runes|
  {
    forall i :: k <= i < |runes| ==> !Probe(d, runes, k, i)
  }

  /** The probe loop of getDAG from end position i onwards. */
  function Probes(d: Dict, runes: string, k: nat, i: nat): (r: seq<nat>)
    requires Valid(d) && k <= i <= |runes|
    ensures Ascending(r)
    ensures forall j :: 0 <= j < |r| ==> i <= r[j] < |runes| && Probe(d, runes, k, r[j])
    ensures forall j :: i <= j < |runes| && Probe(d, runes, k, j) ==> j in r
    decreases |runes| - i
  {
    if i == |runes| then []
    else
      var rest := Probes(d, runes, k, i + 1);
      if Probe(d, runes, k, i) then
        ConsAscending(i, rest);
        [i] + rest
      else rest
  }

  lemma ConsAscending(i: nat, rest: seq<nat>)
    requires Ascending(rest)
    requires forall j :: 0 <= j < |rest| ==> i < rest[j]
    ensures Ascending([i] + rest)
    ensures forall j :: 0 <= j < |rest| + 1 ==> ([i] + rest)[j] == i || ([i] + rest)[j] in rest
    ensures forall x :: x in [i] + rest <==> x == i || x in rest
  {
    var r := [i] + rest;
    forall a, b | 0 <= a < b < |r|
      ensures r[a] < r[b]
    {
      assert r[b] == rest[b - 1];
      if a > 0 {
        assert r[a] == rest[a - 1];
      }
    }
  }

  /** The row of getDAG for position k: the successful probes, or [k] when there is none. */
  function DagAt(d: Dict, runes: string, k: nat): (row: seq<nat>)
    requires Valid(d) && k < |runes|
    ensures ValidRow(row, k, |runes|)
    ensures forall i :: k <= i < |runes| ==>
              (i in row <==> Probe(d, runes, k, i) || (i == k && NoProbe(d, runes, k)))
    ensures NoProbe(d, runes, k) ==> row == [k]
  {
    var paths := Probes(d, runes, k, k);
    if |paths| == 0 then
      assert NoProbe(d, runes, k);
      [k]
    else
      assert !NoProbe(d, runes, k) by {
        assert Probe(d, runes, k, paths[0]);
      }
      paths
  }

  /** getDAG: one row per rune position. */
  function GetDAG(d: Dict, runes: string): (dag: seq<seq<nat>>)
    requires Valid(d)
    ensures ValidDag(dag, |runes|)
    ensures forall k :: 0 <= k < |runes| ==> dag[k] == DagAt(d, runes, k)
  {
    seq(|runes|, k requires 0 <= k < |runes| => DagAt(d, runes, k))
  }

  /**
   * A graph edge k..i exists exactly when the lower-cased runes k..i are a
   * dictionary word or a prefix of one, or when k == i and no word starts
   * at k at all.
   */
  lemma DagEdges(d: Dict, runes: string, k: nat, i: nat)
    requires Valid(d) && k <= i < |runes|
    ensures i in GetDAG(d, runes)[k] <==>
              (exists key :: key in d.trie && ToLower(runes[k..i + 1]) <= key)
              || (i == k && NoProbe(d, runes, k))
  {
    var w := ToLower(runes[k..i + 1]);
    if w in d.trie {
      assert w <= w;
    }
  }
}
