/**
 * The backward route table of the segmentation engine (engine.go: cut,
 * the right-to-left loop that fills routeMap).
 *
 * For each position idx, taken from the end of the text down to 0, every
 * graph end i whose runes idx..i form an exact dictionary word offers the
 * route "word idx..i, then the best route from i+1". The cheapest offer is
 * kept. A position where no word starts falls back to the one-rune route
 * at the fixed unknown-word cost. Costs are abstract integers standing for
 * the float32 log-frequency distances.
 */
module Routes {
  import opened Wrappers
  import opened Strings
  import opened Dictionary
  import opened Dag

  datatype Route = Route(distance: int, index: nat)

  /** The cost of a rune at which no dictionary word starts (10000.0 in cut, engine.go:202). */
  const UnknownCost: int := 10000

  /**
   * The lower-cased runes idx..i (inclusive) are an exact dictionary word,
   * which is when Find returns a token for them (see WordIsFind).
   */
  predicate IsWord(d: Dict, runes: string, idx: nat, i: nat)
    requires idx <= i < |runes|
  {
    ToLower(runes[idx..i + 1]) in d.trie
  }

  /** The distance of the dictionary word idx..i. */
  function WordCost(d: Dict, runes: string, idx: nat, i: nat): int
    requires Indexed(d) && idx <= i < |runes| && IsWord(d, runes, idx, i)
  {
    d.tokens[d.trie[ToLower(runes[idx..i + 1])]].distance
  }

  /** IsWord and WordCost are what cut reads off `token, ok := Find(...)` when `ok && token != nil`. */
  lemma WordIsFind(d: Dict, runes: string, idx: nat, i: nat)
    requires Valid(d) && idx <= i < |runes|
    ensures var f := Find(d, ToLower(runes[idx..i + 1]));
            (f.ok && f.token.Some? <==> IsWord(d, runes, idx, i))
            && (IsWord(d, runes, idx, i) ==> f.token.value.distance == WordCost(d, runes, idx, i))
  {
  }

  /** Every end in `row` lies in [idx, n-1] and has a route after it. */
  predicate RowFits(row: seq<nat>, rm: map<int, Route>, idx: nat, n: nat) {
    forall j :: 0 <= j < |row| ==> idx <= row[j] < n && row[j] + 1 in rm
  }

  /** The distance of the route "word idx..i, then the route from i+1". */
  function Offer(d: Dict, runes: string, rm: map<int, Route>, idx: nat, i: nat): int
    requires Indexed(d) && idx <= i < |runes| && IsWord(d, runes, idx, i) && i + 1 in rm
  {
    WordCost(d, runes, idx, i) + rm[i + 1].distance
  }

  /** Some end of the row makes an exact dictionary word. */
  ghost predicate HasWord(d: Dict, runes: string, row: seq<nat>, idx: nat) {
    exists j :: 0 <= j < |row| && idx <= row[j] < |runes| && IsWord(d, runes, idx, row[j])
  }

  /**
   * The word routes of the row, sorted by distance, first one taken: the
   * cheapest offer, or None when no end of the row makes a word. The model
   * takes the earliest of the cheapest offers; Go's sort.Slice is not stable,
   * so cut may take another offer of the same distance.
   */
  function BestOffer(d: Dict, runes: string, row: seq<nat>, rm: map<int, Route>, idx: nat): (r: Option<Route>)
    requires Indexed(d) && RowFits(row, rm, idx, |runes|)
    ensures r.None? <==> !HasWord(d, runes, row, idx)
    ensures r.Some? ==>
              && r.value.index in row && idx <= r.value.index < |runes| && IsWord(d, runes, idx, r.value.index)
              && r.value.distance == Offer(d, runes, rm, idx, r.value.index)
    ensures r.Some? ==> forall j :: 0 <= j < |row| && IsWord(d, runes, idx, row[j]) ==>
              r.value.distance <= Offer(d, runes, rm, idx, row[j])
  {
    if row == [] then None
    else
      var i := row[0];
      assert idx <= i < |runes| && i + 1 in rm;
      assert RowFits(row[1..], rm, idx, |runes|);
      var rest := BestOffer(d, runes, row[1..], rm, idx);
      assert forall j :: 1 <= j < |row| ==> row[j] == row[1..][j - 1];
      HasWordCons(d, runes, row, idx);
      if IsWord(d, runes, idx, i) && (rest.None? || Offer(d, runes, rm, idx, i) <= rest.value.distance) then
        Some(Route(Offer(d, runes, rm, idx, i), i))
      else rest
  }

  /** A row has a word exactly when its first end makes one or the rest of the row has one. */
  lemma HasWordCons(d: Dict, runes: string, row: seq<nat>, idx: nat)
    requires |row| > 0 && idx <= row[0] < |runes|
    ensures HasWord(d, runes, row, idx) <==> IsWord(d, runes, idx, row[0]) || HasWord(d, runes, row[1..], idx)
  {
    if HasWord(d, runes, row, idx) && !IsWord(d, runes, idx, row[0]) {
      var j :| 0 <= j < |row| && idx <= row[j] < |runes| && IsWord(d, runes, idx, row[j]);
      assert row[1..][j - 1] == row[j];
    }
    if HasWord(d, runes, row[1..], idx) {
      var j :| 0 <= j < |row[1..]| && idx <= row[1..][j] < |runes| && IsWord(d, runes, idx, row[1..][j]);
      assert row[j + 1] == row[1..][j];
    }
  }

  /** The route kept for idx: the best offer, or the one-rune route at the unknown-word cost. */
  function BestRoute(d: Dict, runes: string, row: seq<nat>, rm: map<int, Route>, idx: nat): (r: Route)
    requires Indexed(d) && idx < |runes| && idx + 1 in rm && RowFits(row, rm, idx, |runes|)
    ensures Chosen(d, runes, row, rm[idx := r], idx)
    ensures idx <= r.index < |runes|
  {
    match BestOffer(d, runes, row, rm, idx)
    case Some(r) =>
      assert rm[idx := r][r.index + 1] == rm[r.index + 1];
      r
    case None =>
      Route(UnknownCost + rm[idx + 1].distance, idx)
  }

  /**
   * The route table at idx is locally optimal: when a dictionary word starts
   * at idx, the route takes one, and no word offer is cheaper; otherwise it
   * is the one-rune route at the unknown-word cost.
   */
  ghost predicate Chosen(d: Dict, runes: string, row: seq<nat>, rm: map<int, Route>, idx: nat)
    requires Indexed(d)
  {
    && idx < |runes| && idx in rm && idx + 1 in rm && RowFits(row, rm, idx, |runes|)
    && if HasWord(d, runes, row, idx) then
         var r := rm[idx];
         && r.index in row && idx <= r.index < |runes| && IsWord(d, runes, idx, r.index)
         && r.distance == Offer(d, runes, rm, idx, r.index)
         && forall j :: 0 <= j < |row| && IsWord(d, runes, idx, row[j]) ==>
              r.distance <= Offer(d, runes, rm, idx, row[j])
       else
         rm[idx] == Route(UnknownCost + rm[idx + 1].distance, idx)
  }

  /** The table keys are the positions idx..n. */
  ghost predicate Covers(rm: map<int, Route>, idx: nat, n: nat) {
    forall j :: j in rm <==> idx <= j <= n
  }

  /**
   * routeMap, filled from position idx to the end: the sentinel
   * Route(0, 0) at n, and a locally optimal route at every position before.
   */
  function RouteMap(d: Dict, runes: string, dag: seq<seq<nat>>, idx: nat): (rm: map<int, Route>)
    requires Indexed(d) && ValidDag(dag, |runes|) && idx <= |runes|
    ensures Covers(rm, idx, |runes|)
    ensures rm[|runes|] == Route(0, 0)
    ensures forall j :: idx <= j < |runes| ==> Chosen(d, runes, dag[j], rm, j)
    ensures forall j :: idx <= j < |runes| ==> j <= rm[j].index < |runes|
    decreases |runes| - idx
  {
    if idx == |runes| then map[idx := Route(0, 0)]
    else
      var rest := RouteMap(d, runes, dag, idx + 1);
      assert RowFits(dag[idx], rest, idx, |runes|);
      var r := BestRoute(d, runes, dag[idx], rest, idx);
      ExtendTable(d, runes, dag, rest, idx, r, rest[idx := r]);
      rest[idx := r]
  }

  /** Adding the route chosen at idx to a table filled from idx+1 gives a table filled from idx. */
  lemma ExtendTable(d: Dict, runes: string, dag: seq<seq<nat>>, rest: map<int, Route>, idx: nat, r: Route, rm: map<int, Route>)
    requires Indexed(d) && ValidDag(dag, |runes|) && idx < |runes|
    requires Covers(rest, idx + 1, |runes|)
    requires forall j :: idx < j < |runes| ==> Chosen(d, runes, dag[j], rest, j)
    requires forall j :: idx < j < |runes| ==> j <= rest[j].index < |runes|
    requires rm == rest[idx := r]
    requires Chosen(d, runes, dag[idx], rm, idx) && idx <= r.index < |runes|
    ensures Covers(rm, idx, |runes|)
    ensures rm[|runes|] == rest[|runes|]
    ensures forall j :: idx <= j < |runes| ==> Chosen(d, runes, dag[j], rm, j)
    ensures forall j :: idx <= j < |runes| ==> j <= rm[j].index < |runes|
  {
    forall j | idx < j < |runes|
      ensures Chosen(d, runes, dag[j], rm, j)
    {
      ChosenFrame(d, runes, dag[j], rest, j, idx, r);
    }
  }

  /** Updating the table below idx leaves the choice at idx intact. */
  lemma ChosenFrame(d: Dict, runes: string, row: seq<nat>, rm: map<int, Route>, idx: nat, lo: nat, r: Route)
    requires Indexed(d) && lo < idx
    requires Chosen(d, runes, row, rm, idx)
    ensures Chosen(d, runes, row, rm[lo := r], idx)
  {
    var rm' := rm[lo := r];
    assert forall j :: j >= idx ==> (j in rm' <==> j in rm);
    assert forall j :: j >= idx && j in rm ==> rm'[j] == rm[j];
  }

  /** The route table of a whole text. */
  function RouteTable(d: Dict, runes: string, dag: seq<seq<nat>>): (rm: map<int, Route>)
    requires Indexed(d) && ValidDag(dag, |runes|)
    ensures Covers(rm, 0, |runes|)
    ensures rm[|runes|] == Route(0, 0)
    ensures forall j :: 0 <= j < |runes| ==> Chosen(d, runes, dag[j], rm, j)
    ensures forall j :: 0 <= j < |runes| ==> j <= rm[j].index < |runes|
  {
    RouteMap(d, runes, dag, 0)
  }

  /** When exactly one end of the row makes a dictionary word, the route takes it, whatever the costs. */
  lemma UniqueWordForcesRoute(d: Dict, runes: string, row: seq<nat>, rm: map<int, Route>, idx: nat, i: nat)
    requires Indexed(d) && Chosen(d, runes, row, rm, idx)
    requires i in row && idx <= i < |runes| && IsWord(d, runes, idx, i)
    requires forall j :: idx <= j < |runes| && j != i ==> !IsWord(d, runes, idx, j)
    ensures rm[idx].index == i
  {
    var k :| 0 <= k < |row| && row[k] == i;
    assert HasWord(d, runes, row, idx);
  }

  /** When no dictionary word starts at idx, the route is the single rune at the unknown-word cost. */
  lemma NoWordUnknownRoute(d: Dict, runes: string, row: seq<nat>, rm: map<int, Route>, idx: nat)
    requires Indexed(d) && Chosen(d, runes, row, rm, idx)
    requires forall j :: idx <= j < |runes| ==> !IsWord(d, runes, idx, j)
    ensures rm[idx] == Route(UnknownCost + rm[idx + 1].distance, idx)
  {
  }

  /** The same, read off the route table of a whole text. */
  lemma RouteTableForced(d: Dict, runes: string, idx: nat, i: nat)
    requires Valid(d) && idx <= i < |runes| && IsWord(d, runes, idx, i)
    requires forall j :: idx <= j < |runes| && j != i ==> !IsWord(d, runes, idx, j)
    ensures RouteTable(d, runes, GetDAG(d, runes))[idx].index == i
  {
    var dag := GetDAG(d, runes);
    var rm := RouteTable(d, runes, dag);
    assert Probe(d, runes, idx, i);
    UniqueWordForcesRoute(d, runes, dag[idx], rm, idx, i);
  }

  /** When no dictionary word starts at idx, the route table holds the one-rune route there. */
  lemma RouteTableUnknown(d: Dict, runes: string, idx: nat)
    requires Valid(d) && idx < |runes|
    requires forall j :: idx <= j < |runes| ==> !IsWord(d, runes, idx, j)
    ensures RouteTable(d, runes, GetDAG(d, runes))[idx].index == idx
  {
    var dag := GetDAG(d, runes);
    var rm := RouteTable(d, runes, dag);
    NoWordUnknownRoute(d, runes, dag[idx], rm, idx);
  }

  // ---------------------------------------------------------------------------
  // Global optimality of the route table
  // ---------------------------------------------------------------------------

  /**
   * A step the segmentation may take from idx to end e: a dictionary word
   * of the row when the row has one, the single rune otherwise.
   */
  ghost predicate Step(d: Dict, runes: string, row: seq<nat>, idx: nat, e: nat)
  {
    idx <= e < |runes|
    && if HasWord(d, runes, row, idx) then e in row && IsWord(d, runes, idx, e) else e == idx
  }

  /** The cost of a step: the word's distance, or the unknown-word cost. */
  ghost function StepCost(d: Dict, runes: string, row: seq<nat>, idx: nat, e: nat): int
    requires Indexed(d) && Step(d, runes, row, idx, e)
  {
    if HasWord(d, runes, row, idx) then WordCost(d, runes, idx, e) else UnknownCost
  }

  /** `ends` lists the last rune of every word of a segmentation of runes idx.. built from steps. */
  ghost predicate Path(d: Dict, runes: string, dag: seq<seq<nat>>, idx: nat, ends: seq<nat>)
    requires |dag| == |runes| && idx <= |runes|
    decreases |ends|
  {
    if idx == |runes| then ends == []
    else |ends| > 0 && Step(d, runes, dag[idx], idx, ends[0]) && Path(d, runes, dag, ends[0] + 1, ends[1..])
  }

  ghost function PathCost(d: Dict, runes: string, dag: seq<seq<nat>>, idx: nat, ends: seq<nat>): int
    requires Indexed(d) && |dag| == |runes| && idx <= |runes| && Path(d, runes, dag, idx, ends)
    decreases |ends|
  {
    if idx == |runes| then 0
    else StepCost(d, runes, dag[idx], idx, ends[0]) + PathCost(d, runes, dag, ends[0] + 1, ends[1..])
  }

  /** The segmentation the route table encodes from idx on. */
  ghost function RouteEnds(rm: map<int, Route>, idx: nat, n: nat): seq<nat>
    requires idx <= n && forall j :: idx <= j < n ==> j in rm && j <= rm[j].index < n
    decreases n - idx
  {
    if idx == n then [] else [rm[idx].index] + RouteEnds(rm, rm[idx].index + 1, n)
  }

  /** What the route table guarantees: a sentinel at n and a locally optimal route everywhere before. */
  ghost predicate LocallyOptimal(d: Dict, runes: string, dag: seq<seq<nat>>, rm: map<int, Route>)
    requires Indexed(d) && |dag| == |runes|
  {
    && |runes| in rm && rm[|runes|].distance == 0
    && (forall j :: 0 <= j < |runes| ==> Chosen(d, runes, dag[j], rm, j))
    && (forall j :: 0 <= j < |runes| ==> j in rm && j <= rm[j].index < |runes|)
  }

  /** A locally optimal route is no dearer than any step followed by the route after that step. */
  lemma ChosenBeats(d: Dict, runes: string, row: seq<nat>, rm: map<int, Route>, idx: nat, e: nat)
    requires Indexed(d) && Chosen(d, runes, row, rm, idx) && Step(d, runes, row, idx, e) && e + 1 in rm
    ensures rm[idx].distance <= StepCost(d, runes, row, idx, e) + rm[e + 1].distance
  {
    if HasWord(d, runes, row, idx) {
      var k :| 0 <= k < |row| && row[k] == e;
    }
  }

  /** Under local optimality, no segmentation built from steps costs less than the table's distance. */
  lemma {:induction false} LocalToGlobal(d: Dict, runes: string, dag: seq<seq<nat>>, rm: map<int, Route>, idx: nat, ends: seq<nat>)
    requires Indexed(d) && |dag| == |runes| && LocallyOptimal(d, runes, dag, rm)
    requires idx <= |runes| && Path(d, runes, dag, idx, ends)
    ensures rm[idx].distance <= PathCost(d, runes, dag, idx, ends)
    decreases |ends|
  {
    if idx < |runes| {
      var e := ends[0];
      var row := dag[idx];
      var tail := ends[1..];
      assert Step(d, runes, row, idx, e) && Path(d, runes, dag, e + 1, tail);
      LocalToGlobal(d, runes, dag, rm, e + 1, tail);
      ChosenBeats(d, runes, row, rm, idx, e);
      PathCons(d, runes, dag, idx, ends);
    }
  }

  /** A locally optimal route is a step, and its distance is the step's cost plus the distance after it. */
  lemma ChosenStep(d: Dict, runes: string, row: seq<nat>, rm: map<int, Route>, idx: nat)
    requires Indexed(d) && Chosen(d, runes, row, rm, idx) && rm[idx].index + 1 in rm
    ensures Step(d, runes, row, idx, rm[idx].index)
    ensures StepCost(d, runes, row, idx, rm[idx].index) + rm[rm[idx].index + 1].distance == rm[idx].distance
  {
  }

  /** Under local optimality, the table's own segmentation is built from steps and costs exactly its distance. */
  lemma {:induction false} LocalAttained(d: Dict, runes: string, dag: seq<seq<nat>>, rm: map<int, Route>, idx: nat)
    requires Indexed(d) && |dag| == |runes| && LocallyOptimal(d, runes, dag, rm) && idx <= |runes|
    ensures Path(d, runes, dag, idx, RouteEnds(rm, idx, |runes|))
    ensures PathCost(d, runes, dag, idx, RouteEnds(rm, idx, |runes|)) == rm[idx].distance
    decreases |runes| - idx
  {
    if idx < |runes| {
      LocalAttained(d, runes, dag, rm, rm[idx].index + 1);
      LocalAttainedStep(d, runes, dag, rm, idx);
    }
  }

  /** One step of LocalAttained: the route's first word followed by the table's segmentation of the rest. */
  lemma LocalAttainedStep(d: Dict, runes: string, dag: seq<seq<nat>>, rm: map<int, Route>, idx: nat)
    requires Indexed(d) && |dag| == |runes| && LocallyOptimal(d, runes, dag, rm) && idx < |runes|
    requires var e := rm[idx].index;
             && Path(d, runes, dag, e + 1, RouteEnds(rm, e + 1, |runes|))
             && PathCost(d, runes, dag, e + 1, RouteEnds(rm, e + 1, |runes|)) == rm[e + 1].distance
    ensures Path(d, runes, dag, idx, RouteEnds(rm, idx, |runes|))
    ensures PathCost(d, runes, dag, idx, RouteEnds(rm, idx, |runes|)) == rm[idx].distance
  {
    var e := rm[idx].index;
    var ends := RouteEnds(rm, idx, |runes|);
    var tail := RouteEnds(rm, e + 1, |runes|);
    assert ends[0] == e && ends[1..] == tail;
    ChosenStep(d, runes, dag[idx], rm, idx);
    PathCons(d, runes, dag, idx, ends);
  }

  /** A segmentation is its first step followed by a segmentation of the rest, and costs the sum. */
  lemma PathCons(d: Dict, runes: string, dag: seq<seq<nat>>, idx: nat, ends: seq<nat>)
    requires Indexed(d) && |dag| == |runes| && idx < |runes| && |ends| > 0
    requires Step(d, runes, dag[idx], idx, ends[0]) && Path(d, runes, dag, ends[0] + 1, ends[1..])
    ensures Path(d, runes, dag, idx, ends)
    ensures PathCost(d, runes, dag, idx, ends)
              == StepCost(d, runes, dag[idx], idx, ends[0]) + PathCost(d, runes, dag, ends[0] + 1, ends[1..])
  {
  }

  /**
   * The route table is globally optimal: the segmentation it encodes from
   * idx costs its distance, and no other segmentation built from steps
   * costs less.
   */
  lemma RouteOptimal(d: Dict, runes: string, dag: seq<seq<nat>>, idx: nat, ends: seq<nat>)
    requires Indexed(d) && ValidDag(dag, |runes|) && idx <= |runes|
    ensures var rm := RouteTable(d, runes, dag);
            && Path(d, runes, dag, idx, RouteEnds(rm, idx, |runes|))
            && PathCost(d, runes, dag, idx, RouteEnds(rm, idx, |runes|)) == rm[idx].distance
            && (Path(d, runes, dag, idx, ends) ==> rm[idx].distance <= PathCost(d, runes, dag, idx, ends))
  {
    var rm := RouteTable(d, runes, dag);
    LocalAttained(d, runes, dag, rm, idx);
    if Path(d, runes, dag, idx, ends) {
      LocalToGlobal(d, runes, dag, rm, idx, ends);
    }
  }
}
