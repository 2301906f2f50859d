/**
 * The HMM fallback of the segmentation engine (engine.go: viterbi).
 *
 * The Viterbi scoring itself (float64 log-probabilities over an emission
 * table that is not part of this model) is an oracle `tagger`. What is
 * modelled is the shape of the path it can pick, and the conversion of
 * that path into words that ends viterbi.
 */
module Hmm {
  import opened Strings

  /** Begin, Middle, End of a multi-rune word, or a Single-rune word. */
  datatype Tag = B | M | E | S

  /**
   * The tag-to-word loop. `begin` is the position of the last B seen; it is
   * not reset by E, so a stray E re-emits from the previous B.
   */
  function TagsToWords(runes: string, tags: seq<Tag>, i: nat, begin: nat): seq<string>
    requires |tags| <= |runes| && i <= |tags| && begin <= i
    decreases |tags| - i
  {
    if i == |tags| then []
    else
      match tags[i]
      case B => TagsToWords(runes, tags, i + 1, i)
      case M => TagsToWords(runes, tags, i + 1, begin)
      case E => [runes[begin..i + 1]] + TagsToWords(runes, tags, i + 1, begin)
      case S => [runes[i..i + 1]] + TagsToWords(runes, tags, i + 1, begin)
  }

  /** The tags spell (B M* E | S)*, `inWord` telling whether a word is already open. */
  predicate WellFormedFrom(tags: seq<Tag>, inWord: bool)
    decreases |tags|
  {
    if tags == [] then !inWord
    else
      match tags[0]
      case B => !inWord && WellFormedFrom(tags[1..], true)
      case M => inWord && WellFormedFrom(tags[1..], true)
      case E => inWord && WellFormedFrom(tags[1..], false)
      case S => !inWord && WellFormedFrom(tags[1..], false)
  }

  predicate WellFormed(tags: seq<Tag>) {
    WellFormedFrom(tags, false)
  }

  predicate NonEmptyWords(ws: seq<string>) {
    forall k :: 0 <= k < |ws| ==> |ws[k]| > 0
  }

  /**
   * For a well-formed tag path, the words from position i on are non-empty
   * and concatenate to the runes from the open word's start (or from i when
   * no word is open).
   */
  lemma {:induction false} TagsToWordsPartition(runes: string, tags: seq<Tag>, i: nat, begin: nat, inWord: bool)
    requires |tags| == |runes| && i <= |tags| && begin <= i
    requires WellFormedFrom(tags[i..], inWord)
    ensures NonEmptyWords(TagsToWords(runes, tags, i, begin))
    ensures Concat(TagsToWords(runes, tags, i, begin)) == runes[(if inWord then begin else i)..]
    decreases |tags| - i
  {
    if i < |tags| {
      assert tags[i..][1..] == tags[i + 1..];
      assert tags[i..][0] == tags[i];
      var rest := TagsToWords(runes, tags, i + 1, if tags[i] == B then i else begin);
      match tags[i]
      case B =>
        TagsToWordsPartition(runes, tags, i + 1, i, true);
      case M =>
        TagsToWordsPartition(runes, tags, i + 1, begin, true);
      case E =>
        TagsToWordsPartition(runes, tags, i + 1, begin, false);
        assert runes[begin..] == runes[begin..i + 1] + runes[i + 1..];
        assert ([runes[begin..i + 1]] + rest)[1..] == rest;
      case S =>
        TagsToWordsPartition(runes, tags, i + 1, begin, false);
        assert runes[i..] == runes[i..i + 1] + runes[i + 1..];
        assert ([runes[i..i + 1]] + rest)[1..] == rest;
    }
  }

  /**
   * A path viterbi can pick. After the first rune every tag follows
   * PrevStatus, and the path ends in E or S. The first tag is free: the
   * start loop remakes V[0] for every state, so only V[0]['S'] survives and
   * B, M and E read as 0.0, the best score there is. So the path is
   * (B M* E | S)* or, opening a word at rune 0, (M* E) (B M* E | S)*.
   */
  predicate Tagged(tags: seq<Tag>) {
    WellFormedFrom(tags, false) || WellFormedFrom(tags, true)
  }

  /**
   * The tagger yields either nothing (every final score fell to the
   * -3.14e100 sentinel, so the path of the zero state, which is nil, is
   * read) or one tag per rune along a path viterbi can pick. A state whose
   * score falls to the sentinel restarts its path, but its score then stays
   * at the sentinel, so such a path is never the one returned.
   */
  ghost predicate Fits(tagger: string -> seq<Tag>) {
    forall s :: tagger(s) == [] || (|tagger(s)| == |s| && Tagged(tagger(s)))
  }

  /** viterbi: the words of the tag path the oracle picks for the runes. */
  function Viterbi(tagger: string -> seq<Tag>, runes: string): (words: seq<string>)
    requires Fits(tagger)
    ensures tagger(runes) == [] ==> words == []
    ensures tagger(runes) != [] ==> NonEmptyWords(words) && Concat(words) == runes
  {
    var tags := tagger(runes);
    var words := TagsToWords(runes, tags, 0, 0);
    if tags == [] then words
    else
      TagsToWordsPartition(runes, tags, 0, 0, !WellFormedFrom(tags, false));
      words
  }

  /**
   * A path that opens with E, which the start quirk lets through, still
   * cuts the runes: E at rune 0 closes the word opened at 0.
   */
  lemma OpeningEndTag()
    ensures Tagged([E, S]) && !WellFormed([E, S])
    ensures TagsToWords("ab", [E, S], 0, 0) == ["a", "b"]
  {
    assert TagsToWords("ab", [E, S], 2, 0) == [];
    assert "ab"[0..1] == "a" && "ab"[1..2] == "b";
  }
}
