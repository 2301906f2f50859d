/**
 * The segmenter itself (engine.go: Segmenter, Cut, cut, Trim, FilterSymbol).
 *
 * `cut` builds the word graph and the route table, then replays the routes
 * from the start of the text, emitting the original (not lower-cased)
 * runes of every chosen word. With the HMM enabled, a route that is one
 * byte long and is followed by further one-rune routes hands the whole run
 * of one-rune routes to the Viterbi tagger instead.
 */
module Engine {
  import opened Strings
  import opened Dictionary
  import opened Dag
  import opened Routes
  import opened Hmm
  import opened Seqs

  /**
   * The segmenter state: the dictionary, the field separator of dictionary
   * lines, and the stop words (the keys of StopWordMap).
   */
  datatype Segmenter = Segmenter(dict: Dict, dictSep: string, stopWords: set<string>)

  /** unicode.IsSymbol, unicode.IsSpace and unicode.IsPunct, left uninterpreted. */
  datatype RuneClass = RuneClass(isSymbol: char -> bool, isSpace: char -> bool, isPunct: char -> bool)

  // ---------------------------------------------------------------------------
  // Forward replay of the route table
  // ---------------------------------------------------------------------------

  /** A route table for n runes: keys 0..n, and every route ends inside [j, n-1]. */
  ghost predicate Table(rm: map<int, Route>, n: nat) {
    && (forall j :: 0 <= j <= n ==> j in rm)
    && (forall j :: 0 <= j < n ==> j <= rm[j].index < n)
  }

  /** The inner loop of cut: the end of the run of one-rune routes starting at e. */
  function RunEnd(rm: map<int, Route>, e: nat, n: nat): (r: nat)
    requires e <= n && forall j :: e <= j < n ==> j in rm
    ensures e <= r <= n
    ensures forall j :: e <= j < r ==> rm[j].index == j
    ensures r < n ==> rm[r].index != r
    decreases n - e
  {
    if e < n && rm[e].index == e then RunEnd(rm, e + 1, n) else e
  }

  /**
   * The forward loop of cut, from position idx. The HMM is tried only when
   * the route's word is one byte long (an ASCII rune) and the following
   * route is a one-rune route too; if the tagger yields no word, the route's
   * word is emitted as usual.
   */
  function Replay(tagger: string -> seq<Tag>, runes: string, rm: map<int, Route>, hmm: bool, idx: nat): (r: seq<string>)
    requires Fits(tagger) && Table(rm, |runes|) && idx <= |runes|
    ensures NonEmptyWords(r) && Concat(r) == runes[idx..]
    decreases |runes| - idx
  {
    if idx == |runes| then []
    else
      var ridx := rm[idx].index;
      var word := runes[idx..ridx + 1];
      var end := if hmm && Utf8Len(word) == 1 then RunEnd(rm, idx + 1, |runes|) else idx + 1;
      var hmmSeg := if end > idx + 1 then Viterbi(tagger, runes[idx..end]) else [];
      if |hmmSeg| > 0 then
        var rest := Replay(tagger, runes, rm, hmm, end);
        ReplayStep(runes, idx, end, hmmSeg, rest);
        hmmSeg + rest
      else
        var rest := Replay(tagger, runes, rm, hmm, ridx + 1);
        ReplayStep(runes, idx, ridx + 1, [word], rest);
        [word] + rest
  }

  /** Words covering idx..mid followed by words covering mid.. cover idx.. */
  lemma ReplayStep(runes: string, idx: nat, mid: nat, head: seq<string>, rest: seq<string>)
    requires idx < mid <= |runes|
    requires NonEmptyWords(head) && Concat(head) == runes[idx..mid]
    requires NonEmptyWords(rest) && Concat(rest) == runes[mid..]
    ensures NonEmptyWords(head + rest) && Concat(head + rest) == runes[idx..]
  {
    ConcatAppend(head, rest);
    assert runes[idx..] == runes[idx..mid] + runes[mid..];
    forall k | 0 <= k < |head + rest|
      ensures |(head + rest)[k]| > 0
    {
      if k >= |head| {
        assert (head + rest)[k] == rest[k - |head|];
      }
    }
  }

  /** The route table of a text is a table the replay can walk. */
  lemma RouteTableIsTable(d: Dict, runes: string)
    requires Valid(d)
    ensures Table(RouteTable(d, runes, GetDAG(d, runes)), |runes|)
  {
  }

  /** Without the HMM every step of the replay emits the route's word and jumps past it. */
  lemma ReplayPlain(tagger: string -> seq<Tag>, runes: string, rm: map<int, Route>, idx: nat)
    requires Fits(tagger) && Table(rm, |runes|) && idx < |runes|
    ensures Replay(tagger, runes, rm, false, idx)
              == [runes[idx..rm[idx].index + 1]] + Replay(tagger, runes, rm, false, rm[idx].index + 1)
  {
  }

  /** A route word longer than one byte is emitted whole, even with the HMM on. */
  lemma ReplayLongWord(tagger: string -> seq<Tag>, runes: string, rm: map<int, Route>, idx: nat)
    requires Fits(tagger) && Table(rm, |runes|) && idx < |runes|
    requires Utf8Len(runes[idx..rm[idx].index + 1]) != 1
    ensures Replay(tagger, runes, rm, true, idx)
              == [runes[idx..rm[idx].index + 1]] + Replay(tagger, runes, rm, true, rm[idx].index + 1)
  {
  }

  /** The words a list of word ends cuts from runes idx.. . */
  function WordsOf(runes: string, idx: nat, ends: seq<nat>): seq<string>
    decreases |ends|
  {
    if ends == [] || !(idx <= ends[0] < |runes|) then []
    else [runes[idx..ends[0] + 1]] + WordsOf(runes, ends[0] + 1, ends[1..])
  }

  /** The last rune of every word when `words` are laid end to end from `start`. */
  function EndsOf(words: seq<string>, start: nat): (ends: seq<nat>)
    requires NonEmptyWords(words)
    ensures |ends| == |words|
    decreases |words|
  {
    if words == [] then []
    else
      assert NonEmptyWords(words[1..]) by {
        forall k | 0 <= k < |words[1..]| ensures |words[1..][k]| > 0 {
          assert words[1..][k] == words[k + 1];
        }
      }
      [start + |words[0]| - 1] + EndsOf(words[1..], start + |words[0]|)
  }

  /** Cutting a text at the ends of the words it is made of gives back those words. */
  lemma {:induction false} WordsOfConcat(runes: string, start: nat, words: seq<string>)
    requires NonEmptyWords(words) && start <= |runes| && runes[start..] == Concat(words)
    ensures WordsOf(runes, start, EndsOf(words, start)) == words
    decreases |words|
  {
    if words != [] {
      var w := words[0];
      var e := start + |w| - 1;
      assert runes[start..] == w + Concat(words[1..]);
      assert runes[start..e + 1] == runes[start..][..|w|] == w;
      assert runes[e + 1..] == runes[start..][|w|..] == Concat(words[1..]);
      WordsOfConcat(runes, e + 1, words[1..]);
      var ends := EndsOf(words, start);
      assert ends[0] == e && ends[1..] == EndsOf(words[1..], e + 1);
      assert [w] + words[1..] == words;
    }
  }

  /** Without the HMM the replay emits exactly the segmentation the route table encodes. */
  lemma {:induction false} ReplayFollowsRoutes(tagger: string -> seq<Tag>, runes: string, rm: map<int, Route>, idx: nat)
    requires Fits(tagger) && Table(rm, |runes|) && idx <= |runes|
    ensures Replay(tagger, runes, rm, false, idx) == WordsOf(runes, idx, RouteEnds(rm, idx, |runes|))
    decreases |runes| - idx
  {
    if idx < |runes| {
      var e := rm[idx].index;
      ReplayFollowsRoutes(tagger, runes, rm, e + 1);
      var ends := RouteEnds(rm, idx, |runes|);
      assert ends[0] == e && ends[1..] == RouteEnds(rm, e + 1, |runes|);
    }
  }

  /** Without the HMM, Cut emits the words of the route table's segmentation. */
  lemma CutFollowsRoutes(d: Dict, tagger: string -> seq<Tag>, text: string)
    requires Valid(d) && Fits(tagger)
    ensures CutText(d, tagger, text, false)
              == WordsOf(text, 0, RouteEnds(RouteTable(d, text, GetDAG(d, text)), 0, |text|))
  {
    RouteTableIsTable(d, text);
    ReplayFollowsRoutes(tagger, text, RouteTable(d, text, GetDAG(d, text)), 0);
  }

  /**
   * Without the HMM, Cut emits the words of a cheapest segmentation: one
   * built from dictionary words wherever a word starts, and from single
   * runes at the unknown-word cost elsewhere.
   */
  lemma CutIsOptimal(d: Dict, tagger: string -> seq<Tag>, text: string, other: seq<nat>)
    requires Valid(d) && Fits(tagger)
    ensures var dag := GetDAG(d, text);
            var ends := RouteEnds(RouteTable(d, text, dag), 0, |text|);
            && CutText(d, tagger, text, false) == WordsOf(text, 0, ends)
            && Path(d, text, dag, 0, ends)
            && (Path(d, text, dag, 0, other) ==>
                  PathCost(d, text, dag, 0, ends) <= PathCost(d, text, dag, 0, other))
  {
    CutFollowsRoutes(d, tagger, text);
    RouteOptimal(d, text, GetDAG(d, text), 0, other);
  }

  /**
   * cut: graph, route table, forward replay. With or without the HMM the
   * words are non-empty and concatenate to exactly the input, original case
   * included.
   */
  function CutText(d: Dict, tagger: string -> seq<Tag>, text: string, hmm: bool): (words: seq<string>)
    requires Valid(d) && Fits(tagger)
    ensures text == [] ==> words == []
    ensures NonEmptyWords(words) && Concat(words) == text
  {
    var dag := GetDAG(d, text);
    var rm := RouteTable(d, text, dag);
    assert text[0..] == text;
    Replay(tagger, text, rm, hmm, 0)
  }

  /** Cut: the HMM is on unless the first optional argument is false. */
  function Cut(seg: Segmenter, tagger: string -> seq<Tag>, text: string, hmm: seq<bool>): (words: seq<string>)
    requires Valid(seg.dict) && Fits(tagger)
    ensures text == [] ==> words == []
    ensures NonEmptyWords(words) && Concat(words) == text
  {
    var useHMM := !(|hmm| > 0 && !hmm[0]);
    CutText(seg.dict, tagger, text, useHMM)
  }

  /** Cut with no option, or with `true`, takes the HMM path; with `false` it does not. */
  lemma CutDefaultsToHmm(seg: Segmenter, tagger: string -> seq<Tag>, text: string, rest: seq<bool>)
    requires Valid(seg.dict) && Fits(tagger)
    ensures Cut(seg, tagger, text, []) == CutText(seg.dict, tagger, text, true)
    ensures Cut(seg, tagger, text, [true] + rest) == CutText(seg.dict, tagger, text, true)
    ensures Cut(seg, tagger, text, [false] + rest) == CutText(seg.dict, tagger, text, false)
  {
  }

  /**
   * The HMM gate: a step of the replay departs from "emit the route's word"
   * only when that word is a single ASCII rune and the next route is a
   * one-rune route as well.
   */
  lemma HmmGate(tagger: string -> seq<Tag>, runes: string, rm: map<int, Route>, idx: nat)
    requires Fits(tagger) && Table(rm, |runes|) && idx < |runes|
    ensures var ridx := rm[idx].index;
            Replay(tagger, runes, rm, true, idx) != [runes[idx..ridx + 1]] + Replay(tagger, runes, rm, true, ridx + 1)
            ==> ridx == idx && runes[idx] as int < 0x80 && idx + 1 < |runes| && rm[idx + 1].index == idx + 1
  {
    Utf8LenOne(runes[idx..rm[idx].index + 1]);
  }

  /**
   * Because the gate measures bytes, a text with no ASCII rune never reaches
   * the tagger: on such a text the HMM path and the plain path agree.
   */
  lemma {:induction false} NonAsciiSkipsHmm(tagger: string -> seq<Tag>, runes: string, rm: map<int, Route>, idx: nat)
    requires Fits(tagger) && Table(rm, |runes|) && idx <= |runes|
    requires forall k :: 0 <= k < |runes| ==> runes[k] as int >= 0x80
    ensures Replay(tagger, runes, rm, true, idx) == Replay(tagger, runes, rm, false, idx)
    decreases |runes| - idx
  {
    if idx < |runes| {
      var ridx := rm[idx].index;
      Utf8LenOne(runes[idx..ridx + 1]);
      NonAsciiSkipsHmm(tagger, runes, rm, ridx + 1);
      LongWordSkipsHmm(tagger, runes, rm, idx);
    }
  }

  /** A step over a word longer than one byte keeps the two replays equal. */
  lemma LongWordSkipsHmm(tagger: string -> seq<Tag>, runes: string, rm: map<int, Route>, idx: nat)
    requires Fits(tagger) && Table(rm, |runes|) && idx < |runes|
    requires Utf8Len(runes[idx..rm[idx].index + 1]) != 1
    requires Replay(tagger, runes, rm, true, rm[idx].index + 1) == Replay(tagger, runes, rm, false, rm[idx].index + 1)
    ensures Replay(tagger, runes, rm, true, idx) == Replay(tagger, runes, rm, false, idx)
  {
    ReplayLongWord(tagger, runes, rm, idx);
    ReplayPlain(tagger, runes, rm, idx);
  }

  /** On a text with no ASCII rune, Cut gives the same words with and without the HMM. */
  lemma CutNonAscii(d: Dict, tagger: string -> seq<Tag>, text: string)
    requires Valid(d) && Fits(tagger)
    requires forall k :: 0 <= k < |text| ==> text[k] as int >= 0x80
    ensures CutText(d, tagger, text, true) == CutText(d, tagger, text, false)
  {
    var rm := RouteTable(d, text, GetDAG(d, text));
    NonAsciiSkipsHmm(tagger, text, rm, 0);
  }

  // ---------------------------------------------------------------------------
  // Trim and FilterSymbol
  // ---------------------------------------------------------------------------

  /** A symbol, space or punctuation rune. */
  predicate Dropped(cls: RuneClass, c: char) {
    cls.isSymbol(c) || cls.isSpace(c) || cls.isPunct(c)
  }

  predicate Clean(cls: RuneClass, s: string) {
    forall i :: 0 <= i < |s| ==> !Dropped(cls, s[i])
  }

  /** FilterSymbol: the runes of the text that are not symbols, spaces or punctuation, in order. */
  function FilterSymbol(cls: RuneClass, text: string): (r: string)
    ensures |text| == 1 ==> r == if Dropped(cls, text[0]) then [] else text
    ensures Clean(cls, r)
    ensures Subseq(r, text)
    ensures forall c :: c in text && !Dropped(cls, c) ==> c in r
    ensures Clean(cls, text) ==> r == text
  {
    if text == [] then []
    else
      var rest := FilterSymbol(cls, text[1..]);
      assert forall c :: c in text ==> c == text[0] || c in text[1..];
      if Dropped(cls, text[0]) then rest
      else
        assert ([text[0]] + rest)[1..] == rest;
        [text[0]] + rest
  }

  /** A cleaned token survives Trim: it is not empty and not a stop word. */
  predicate Kept(seg: Segmenter, w: string) {
    w != [] && w !in seg.stopWords
  }

  /**
   * FilterSymbol works rune by rune: filtering a concatenation is filtering
   * each part. With the one-rune case of its contract this pins down the
   * result, repeated runes included.
   */
  lemma {:induction false} FilterSymbolAppend(cls: RuneClass, a: string, b: string)
    ensures FilterSymbol(cls, a + b) == FilterSymbol(cls, a) + FilterSymbol(cls, b)
    decreases |a|
  {
    if a == [] {
      assert a + b == b;
    } else {
      assert (a + b)[0] == a[0] && (a + b)[1..] == a[1..] + b;
      FilterSymbolAppend(cls, a[1..], b);
    }
  }

  function MapFilter(cls: RuneClass, s: seq<string>): (r: seq<string>)
    ensures |r| == |s| && forall i :: 0 <= i < |s| ==> r[i] == FilterSymbol(cls, s[i])
  {
    if s == [] then [] else [FilterSymbol(cls, s[0])] + MapFilter(cls, s[1..])
  }

  /**
   * Trim: every token is stripped of symbols, spaces and punctuation, and
   * dropped when that leaves it empty or a stop word.
   */
  function Trim(seg: Segmenter, cls: RuneClass, s: seq<string>): (r: seq<string>)
    ensures forall k :: 0 <= k < |r| ==> Kept(seg, r[k]) && Clean(cls, r[k])
    ensures Subseq(r, MapFilter(cls, s))
    ensures forall i :: 0 <= i < |s| && Kept(seg, FilterSymbol(cls, s[i])) ==> FilterSymbol(cls, s[i]) in r
    ensures r == KeptOnly(seg, MapFilter(cls, s))
  {
    if s == [] then []
    else
      var si := FilterSymbol(cls, s[0]);
      var si := if si in seg.stopWords then [] else si;
      var rest := Trim(seg, cls, s[1..]);
      assert MapFilter(cls, s)[1..] == MapFilter(cls, s[1..]);
      var r := if si != [] then [si] + rest else rest;
      assert r == KeptOnly(seg, MapFilter(cls, s));
      KeptOnlyFacts(seg, cls, MapFilter(cls, s));
      r
  }

  /**
   * What keeping only the non-empty, non-stop tokens of clean tokens gives:
   * clean kept tokens, in order, every kept token present.
   */
  lemma {:induction false} KeptOnlyFacts(seg: Segmenter, cls: RuneClass, xs: seq<string>)
    requires forall i :: 0 <= i < |xs| ==> Clean(cls, xs[i])
    ensures forall k :: 0 <= k < |KeptOnly(seg, xs)| ==> Kept(seg, KeptOnly(seg, xs)[k]) && Clean(cls, KeptOnly(seg, xs)[k])
    ensures Subseq(KeptOnly(seg, xs), xs)
    ensures forall i :: 0 <= i < |xs| && Kept(seg, xs[i]) ==> xs[i] in KeptOnly(seg, xs)
    decreases |xs|
  {
    if xs != [] {
      KeptOnlyFacts(seg, cls, xs[1..]);
      var rest := KeptOnly(seg, xs[1..]);
      assert forall i :: 1 <= i < |xs| ==> xs[i] == xs[1..][i - 1];
      var r := KeptOnly(seg, xs);
      if Kept(seg, xs[0]) {
        assert r == [xs[0]] + rest;
        assert r[0] == xs[0] && r[1..] == rest;
      } else {
        assert r == rest;
      }
    }
  }

  /** Trim of a clean token: kept as it is unless it is empty or a stop word. */
  lemma TrimCleanHead(seg: Segmenter, cls: RuneClass, w: string, rest: seq<string>)
    requires Clean(cls, w)
    ensures Trim(seg, cls, [w] + rest) == (if Kept(seg, w) then [w] else []) + Trim(seg, cls, rest)
  {
    assert ([w] + rest)[1..] == rest;
  }

  /** The tokens that are neither empty nor stop words, in order. */
  function KeptOnly(seg: Segmenter, s: seq<string>): seq<string> {
    if s == [] then []
    else (if Kept(seg, s[0]) then [s[0]] else []) + KeptOnly(seg, s[1..])
  }

  /** On tokens that are already clean, Trim only drops the empty tokens and the stop words. */
  lemma {:induction false} TrimClean(seg: Segmenter, cls: RuneClass, s: seq<string>)
    requires forall k :: 0 <= k < |s| ==> Clean(cls, s[k])
    ensures Trim(seg, cls, s) == KeptOnly(seg, s)
    decreases |s|
  {
    if s != [] {
      TrimClean(seg, cls, s[1..]);
      TrimCleanHead(seg, cls, s[0], s[1..]);
      assert [s[0]] + s[1..] == s;
    }
  }

  /** Trimming trimmed tokens changes nothing. */
  lemma {:induction false} TrimIdempotent(seg: Segmenter, cls: RuneClass, s: seq<string>)
    ensures Trim(seg, cls, Trim(seg, cls, s)) == Trim(seg, cls, s)
    decreases |s|
  {
    if s != [] {
      var t := Trim(seg, cls, s);
      TrimIdempotent(seg, cls, s[1..]);
      if t != [] && t != Trim(seg, cls, s[1..]) {
        assert t[1..] == Trim(seg, cls, s[1..]);
      }
    }
  }
}
