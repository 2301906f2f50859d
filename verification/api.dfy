/**
 * The loaders and the public entry points of the segmenter (api.go).
 *
 * A dictionary file holds one word per line, with an optional frequency
 * and an optional part of speech, separated by the segmenter's DictSep.
 * A stop-word file holds one stop word per line. Both are read with a
 * line scanner. strconv.ParseFloat is an oracle `parse`; math.Log is the
 * oracle `logOf` of NewToken.
 */
module Api {
  import opened Wrappers
  import opened Strings
  import opened Dictionary
  import opened Hmm
  import opened Engine

  // ---------------------------------------------------------------------------
  // loadDictFromString
  // ---------------------------------------------------------------------------

  /** A dictionary line that was not skipped. */
  datatype Entry = Entry(word: string, freq: real, pos: string)

  /**
   * The first field of a line: everything before the first occurrence of
   * the separator, or the whole line when it has none. An empty separator
   * splits between runes, so the first field is then the first rune.
   */
  function FirstField(line: string, sep: string): string {
    if sep == [] then (if line == [] then [] else line[..1])
    else if IndexOf(line, sep) < 0 then line
    else line[..IndexOf(line, sep)]
  }

  /**
   * One line of the dictionary file: skipped when its first field is empty;
   * the frequency defaults to 1.0 when the second field is missing or does
   * not parse; the part of speech is the third field, or empty.
   */
  function ParseLine(line: string, sep: string, parse: string -> Option<real>): (r: Option<Entry>)
    ensures line == [] ==> r.None?
    ensures r.Some? ==> r.value.word != [] && r.value.word <= line
  {
    var fields := Split(line, sep);
    if |fields| < 1 || fields[0] == [] then None
    else
      var freq := if |fields| > 1 && parse(fields[1]).Some? then parse(fields[1]).value else 1.0;
      var pos := if |fields| > 2 then fields[2] else "";
      Some(Entry(fields[0], freq, pos))
  }

  /**
   * The word of a line is its first field: a line is skipped exactly when
   * that field is empty, and otherwise that field is the word.
   */
  lemma ParseLineFirstField(line: string, sep: string, parse: string -> Option<real>)
    ensures ParseLine(line, sep, parse).None? <==> FirstField(line, sep) == []
    ensures ParseLine(line, sep, parse).Some? ==> ParseLine(line, sep, parse).value.word == FirstField(line, sep)
  {
    if sep != [] && IndexOf(line, sep) >= 0 {
      SplitAtFirst(line, sep, IndexOf(line, sep));
    }
  }

  /** The frequency a frequency field stands for. */
  function FreqOf(parse: string -> Option<real>, text: string): real {
    if parse(text).Some? then parse(text).value else 1.0
  }

  /** A line written as "word SEP freq SEP pos" is read back as that entry. */
  lemma ParseLineOfJoin(word: string, freqText: string, pos: string, sep: string, parse: string -> Option<real>)
    requires |sep| == 1 && word != []
    requires sep[0] !in word && sep[0] !in freqText && sep[0] !in pos
    ensures ParseLine(Join([word, freqText, pos], sep), sep, parse) == Some(Entry(word, FreqOf(parse, freqText), pos))
  {
    JoinSplit([word, freqText, pos], sep);
  }

  /**
   * A line written as its fields joined by a one-rune separator that no
   * field contains is read as: skipped when the first field is empty;
   * otherwise that word, the frequency of the second field (1.0 when it is
   * missing or does not parse), and the third field as part of speech (empty
   * when missing). Fields after the third are ignored.
   */
  lemma ParseLineOfFields(fs: seq<string>, sep: string, parse: string -> Option<real>)
    requires |sep| == 1 && |fs| >= 1
    requires forall k :: 0 <= k < |fs| ==> sep[0] !in fs[k]
    ensures ParseLine(Join(fs, sep), sep, parse)
              == if fs[0] == [] then None
                 else Some(Entry(fs[0], if |fs| > 1 then FreqOf(parse, fs[1]) else 1.0, if |fs| > 2 then fs[2] else ""))
  {
    JoinSplit(fs, sep);
  }

  /** A line holding only a word gets frequency 1.0 and no part of speech. */
  lemma ParseLineWordOnly(word: string, sep: string, parse: string -> Option<real>)
    requires |sep| == 1 && word != [] && sep[0] !in word
    ensures ParseLine(word, sep, parse) == Some(Entry(word, 1.0, ""))
  {
    JoinSplit([word], sep);
  }

  /** A line that starts with the separator has an empty word and is skipped. */
  lemma ParseLineLeadingSep(rest: string, sep: string, parse: string -> Option<real>)
    requires sep != []
    ensures ParseLine(sep + rest, sep, parse).None?
  {
    assert OccursAt(sep + rest, sep, 0) by {
      assert (sep + rest)[0..|sep|] == sep;
    }
    assert IndexOf(sep + rest, sep) == 0;
  }

  /** The token a dictionary entry becomes, its distance still provisional. */
  function EntryToken(e: Entry, logOf: real -> int): (t: Token)
    ensures Key(t) == ToLower(e.word)
    ensures t.freq == e.freq && t.pos == e.pos
  {
    NewToken(SplitTextToWords(e.word), e.freq, e.pos, 1.0, logOf)
  }

  /** The trie keys of the lines that are not skipped, in file order. */
  function ParsedKeys(lines: seq<string>, sep: string, parse: string -> Option<real>): seq<string> {
    if lines == [] then []
    else
      match ParseLine(lines[0], sep, parse)
      case None => ParsedKeys(lines[1..], sep, parse)
      case Some(e) => [ToLower(e.word)] + ParsedKeys(lines[1..], sep, parse)
  }

  /** The entries of the lines that are not skipped, in file order, repeated words included. */
  function ParsedEntries(lines: seq<string>, sep: string, parse: string -> Option<real>): seq<Entry> {
    if lines == [] then []
    else
      (match ParseLine(lines[0], sep, parse)
       case None => []
       case Some(e) => [e])
      + ParsedEntries(lines[1..], sep, parse)
  }

  /** The summed frequency of a list of entries. */
  function SumFreq(es: seq<Entry>): real {
    if es == [] then 0.0 else es[0].freq + SumFreq(es[1..])
  }

  /** The dictionary after loading, and the summed frequency loadDictFromString returns. */
  datatype Loaded = Loaded(dict: Dict, total: real)

  /**
   * One pass of the scan loop of loadDictFromString: a line that is not
   * skipped hands its token to AddToken, so only its key can be new.
   */
  function LoadLine(d: Dict, line: string, sep: string, parse: string -> Option<real>, logOf: real -> int): (r: Dict)
    requires Valid(d)
    ensures Valid(r)
    ensures d.tokens <= r.tokens
    ensures forall k :: k in d.trie ==> k in r.trie && r.trie[k] == d.trie[k]
    ensures forall k :: k in r.trie <==>
              k in d.trie || (ParseLine(line, sep, parse).Some? && k == ToLower(ParseLine(line, sep, parse).value.word))
  {
    match ParseLine(line, sep, parse)
    case None => d
    case Some(e) =>
      AddTokenGrows(d, EntryToken(e, logOf));
      AddToken(d, EntryToken(e, logOf))
  }

  /**
   * The scan loop of loadDictFromString over the lines still to read. Every
   * line that is not skipped adds its frequency to the total, whether or
   * not AddToken keeps its token. Keys already in the dictionary keep
   * their token, new keys of the lines are added, and nothing else.
   */
  function LoadLines(d: Dict, lines: seq<string>, sep: string, parse: string -> Option<real>, logOf: real -> int): (r: Loaded)
    requires Valid(d)
    ensures Valid(r.dict)
    ensures d.tokens <= r.dict.tokens
    ensures forall k :: k in d.trie ==> k in r.dict.trie && r.dict.trie[k] == d.trie[k]
    ensures forall k :: k in r.dict.trie <==> k in d.trie || k in ParsedKeys(lines, sep, parse)
    ensures r.total == SumFreq(ParsedEntries(lines, sep, parse))
    decreases |lines|
  {
    if lines == [] then Loaded(d, 0.0)
    else
      var rest := LoadLines(LoadLine(d, lines[0], sep, parse, logOf), lines[1..], sep, parse, logOf);
      match ParseLine(lines[0], sep, parse)
      case None =>
        assert ParsedEntries(lines, sep, parse) == ParsedEntries(lines[1..], sep, parse);
        rest
      case Some(e) =>
        assert ParsedKeys(lines, sep, parse) == [ToLower(e.word)] + ParsedKeys(lines[1..], sep, parse);
        var es := ParsedEntries(lines, sep, parse);
        assert es == [e] + ParsedEntries(lines[1..], sep, parse);
        assert es[0] == e && es[1..] == ParsedEntries(lines[1..], sep, parse);
        Loaded(rest.dict, e.freq + rest.total)
  }

  /** loadDictFromString: scan the text and load every line into the segmenter's dictionary. */
  function LoadDictFromString(seg: Segmenter, text: string, parse: string -> Option<real>, logOf: real -> int): (r: (Segmenter, real))
    requires Valid(seg.dict)
    ensures Valid(r.0.dict)
    ensures r.0.dictSep == seg.dictSep && r.0.stopWords == seg.stopWords
    ensures forall k :: k in r.0.dict.trie <==> k in seg.dict.trie || k in ParsedKeys(ScanLines(text), seg.dictSep, parse)
    ensures r.1 == SumFreq(ParsedEntries(ScanLines(text), seg.dictSep, parse))
  {
    var loaded := LoadLines(seg.dict, ScanLines(text), seg.dictSep, parse, logOf);
    (seg.(dict := loaded.dict), loaded.total)
  }

  /** Line i carries the key of its entry, and no earlier line carries the same key. */
  predicate FirstWithKey(lines: seq<string>, sep: string, parse: string -> Option<real>, i: int)
    requires 0 <= i < |lines|
  {
    && ParseLine(lines[i], sep, parse).Some?
    && forall j :: 0 <= j < i && ParseLine(lines[j], sep, parse).Some? ==>
         ToLower(ParseLine(lines[j], sep, parse).value.word) != ToLower(ParseLine(lines[i], sep, parse).value.word)
  }

  /**
   * First loaded wins: when a key is new to the dictionary, the token stored
   * for it after loading all lines is the token of the first line carrying
   * that key, whatever later lines carry the same key.
   */
  lemma {:induction false} FirstLoadedWins(d: Dict, lines: seq<string>, sep: string, parse: string -> Option<real>, logOf: real -> int, i: nat)
    requires Valid(d) && i < |lines| && FirstWithKey(lines, sep, parse, i)
    requires ToLower(ParseLine(lines[i], sep, parse).value.word) !in d.trie
    ensures var e := ParseLine(lines[i], sep, parse).value;
            var r := LoadLines(d, lines, sep, parse, logOf).dict;
            ToLower(e.word) in r.trie && r.tokens[r.trie[ToLower(e.word)]] == EntryToken(e, logOf)
    decreases i
  {
    var e := ParseLine(lines[i], sep, parse).value;
    var k := ToLower(e.word);
    var d' := LoadLine(d, lines[0], sep, parse, logOf);
    LoadLinesStep(d, lines, sep, parse, logOf);
    if i == 0 {
      var r := LoadLines(d', lines[1..], sep, parse, logOf).dict;
      assert d' == AddToken(d, EntryToken(e, logOf));
      assert d'.trie[k] == |d.tokens|;
      assert r.tokens[|d.tokens|] == d'.tokens[|d.tokens|];
    } else {
      FirstWithKeyTail(lines, sep, parse, i);
      assert k !in d'.trie;
      FirstLoadedWins(d', lines[1..], sep, parse, logOf, i - 1);
    }
  }

  /** The scan loop reads the first line, then the rest. */
  lemma LoadLinesStep(d: Dict, lines: seq<string>, sep: string, parse: string -> Option<real>, logOf: real -> int)
    requires Valid(d) && lines != []
    ensures LoadLines(d, lines, sep, parse, logOf).dict
              == LoadLines(LoadLine(d, lines[0], sep, parse, logOf), lines[1..], sep, parse, logOf).dict
  {
  }

  /** The first line with a key after line 0 is the first with it among the lines after line 0, and its key is not line 0's. */
  lemma FirstWithKeyTail(lines: seq<string>, sep: string, parse: string -> Option<real>, i: int)
    requires 0 < i < |lines| && FirstWithKey(lines, sep, parse, i)
    ensures lines[1..][i - 1] == lines[i]
    ensures FirstWithKey(lines[1..], sep, parse, i - 1)
    ensures ParseLine(lines[0], sep, parse).Some? ==>
              ToLower(ParseLine(lines[0], sep, parse).value.word) != ToLower(ParseLine(lines[i], sep, parse).value.word)
  {
    var tail := lines[1..];
    var k := ToLower(ParseLine(lines[i], sep, parse).value.word);
    assert tail[i - 1] == lines[i];
    forall j | 0 <= j < i - 1 && ParseLine(tail[j], sep, parse).Some?
      ensures ToLower(ParseLine(tail[j], sep, parse).value.word) != k
    {
      assert tail[j] == lines[j + 1];
    }
  }

  predicate Distinct(ks: seq<string>) {
    forall a, b :: 0 <= a < b < |ks| ==> ks[a] != ks[b]
  }

  /**
   * When every loaded key is new and no two lines share a key, the returned
   * total is exactly what the dictionary's own total grew by, and one token
   * is stored per line that was not skipped.
   */
  lemma {:induction false} LoadDistinctKeys(d: Dict, lines: seq<string>, sep: string, parse: string -> Option<real>, logOf: real -> int)
    requires Valid(d)
    requires Distinct(ParsedKeys(lines, sep, parse))
    requires forall j :: 0 <= j < |ParsedKeys(lines, sep, parse)| ==> ParsedKeys(lines, sep, parse)[j] !in d.trie
    ensures var r := LoadLines(d, lines, sep, parse, logOf);
            && r.dict.totalFreq == d.totalFreq + r.total
            && |r.dict.tokens| == |d.tokens| + |ParsedKeys(lines, sep, parse)|
    decreases |lines|
  {
    if lines != [] {
      var ks := ParsedKeys(lines, sep, parse);
      var tail := ParsedKeys(lines[1..], sep, parse);
      var p := ParseLine(lines[0], sep, parse);
      if p.None? {
        assert ks == tail;
        LoadDistinctKeys(d, lines[1..], sep, parse, logOf);
      } else {
        var e := p.value;
        assert ks == [ToLower(e.word)] + tail;
        assert ks[0] !in d.trie;
        var d' := AddToken(d, EntryToken(e, logOf));
        DistinctTail(ks, d.trie, d'.trie);
        LoadDistinctKeys(d', lines[1..], sep, parse, logOf);
      }
    }
  }

  /** The keys after the first of a distinct list of new keys are new after the first is added. */
  lemma DistinctTail(ks: seq<string>, before: map<string, nat>, after: map<string, nat>)
    requires |ks| > 0 && Distinct(ks)
    requires forall j :: 0 <= j < |ks| ==> ks[j] !in before
    requires forall k :: k in after ==> k in before || k == ks[0]
    ensures Distinct(ks[1..])
    ensures forall j :: 0 <= j < |ks[1..]| ==> ks[1..][j] !in after
  {
    forall j | 0 <= j < |ks[1..]|
      ensures ks[1..][j] !in after
    {
      assert ks[1..][j] == ks[j + 1];
    }
  }

  // ---------------------------------------------------------------------------
  // recalculateTokenDistances
  // ---------------------------------------------------------------------------

  /**
   * The distance loop: every token with a positive frequency gets the cost
   * of its frequency against the final total; the other tokens, and every
   * other field, are left as they are.
   */
  function Recalculate(tokens: seq<Token>, total: real, logOf: real -> int): (r: seq<Token>)
    ensures |r| == |tokens|
    ensures forall i :: 0 <= i < |tokens| ==>
              r[i].text == tokens[i].text && r[i].freq == tokens[i].freq && r[i].pos == tokens[i].pos
    ensures forall i :: 0 <= i < |tokens| && tokens[i].freq <= 0.0 ==> r[i] == tokens[i]
    ensures forall i :: 0 <= i < |tokens| && tokens[i].freq > 0.0 ==>
              r[i] == NewToken(tokens[i].text, tokens[i].freq, tokens[i].pos, total, logOf)
  {
    if tokens == [] then []
    else
      var t := tokens[0];
      var t' := if t.freq > 0.0 then t.(distance := logOf(total / t.freq)) else t;
      var rest := Recalculate(tokens[1..], total, logOf);
      var r := [t'] + rest;
      assert r[0] == t';
      assert forall i :: 1 <= i < |tokens| ==> r[i] == rest[i - 1] && tokens[i] == tokens[1..][i - 1];
      r
  }

  /** Recalculating twice against the same total is recalculating once. */
  lemma RecalculateIdempotent(tokens: seq<Token>, total: real, logOf: real -> int)
    ensures Recalculate(Recalculate(tokens, total, logOf), total, logOf) == Recalculate(tokens, total, logOf)
  {
    var r := Recalculate(tokens, total, logOf);
    var rr := Recalculate(r, total, logOf);
    forall i | 0 <= i < |tokens|
      ensures rr[i] == r[i]
    {
    }
  }

  /** recalculateTokenDistances: the trie is untouched, so every lookup key still finds its token. */
  function RecalculateTokenDistances(d: Dict, total: real, logOf: real -> int): (r: Dict)
    requires Valid(d)
    ensures Valid(r)
    ensures r.tokens == Recalculate(d.tokens, total, logOf)
    ensures r.trie == d.trie && r.nodes == d.nodes && |r.tokens| == |d.tokens|
    ensures r.maxTokenLen == d.maxTokenLen && r.totalFreq == d.totalFreq
    ensures forall w :: Find(r, w).ok == Find(d, w).ok
  {
    var r := d.(tokens := Recalculate(d.tokens, total, logOf));
    assert forall k :: k in r.trie ==> Key(r.tokens[r.trie[k]]) == Key(d.tokens[d.trie[k]]);
    r
  }

  // ---------------------------------------------------------------------------
  // loadStopFromString
  // ---------------------------------------------------------------------------

  /** The insert loop of loadStopFromString: each non-empty line is marked as a stop word. */
  function InsertStops(lines: seq<string>, acc: set<string>): (r: set<string>)
    ensures forall w :: w in r <==> w in acc || (w != [] && w in lines)
    decreases |lines|
  {
    if lines == [] then acc
    else
      assert forall w :: w in lines <==> w == lines[0] || w in lines[1..];
      InsertStops(lines[1..], if lines[0] != [] then acc + {lines[0]} else acc)
  }

  /** The stop words of a file, starting from an empty map: its non-empty lines, not trimmed. */
  function LoadStop(text: string): (r: set<string>)
    ensures forall w :: w in r <==> w != [] && w in ScanLines(text)
  {
    InsertStops(ScanLines(text), {})
  }

  /** loadStopFromString: the stop words are replaced, nothing else changes. */
  function LoadStopFromString(seg: Segmenter, text: string): (r: Segmenter)
    ensures r.dict == seg.dict && r.dictSep == seg.dictSep
    ensures forall w :: w in r.stopWords <==> w != [] && w in ScanLines(text)
  {
    seg.(stopWords := LoadStop(text))
  }

  /** A stop-word file written one word per line loads back exactly its non-empty lines. */
  lemma LoadStopOfLines(lines: seq<string>)
    requires forall k :: 0 <= k < |lines| ==> PlainLine(lines[k])
    ensures LoadStop(Terminated(lines)) == set k | 0 <= k < |lines| && lines[k] != [] :: lines[k]
  {
    ScanLinesRoundTrip(lines);
  }

  // ---------------------------------------------------------------------------
  // SegmentTextForIndex and SegmentTextForQuery
  // ---------------------------------------------------------------------------

  lemma JoinNonEmpty(ss: seq<string>, sep: string)
    requires |ss| > 0 && ss[0] != []
    ensures Join(ss, sep) != []
  {
  }

  /**
   * SegmentTextForIndex: cut with the HMM, trim, join with single spaces.
   * An empty text gives an empty string; the result is empty exactly when
   * no token survives Trim; and when spaces count as spaces the result
   * splits back on " " into exactly the trimmed tokens.
   */
  function SegmentTextForIndex(seg: Segmenter, cls: RuneClass, tagger: string -> seq<Tag>, text: string): (r: string)
    requires Valid(seg.dict) && Fits(tagger)
    ensures text == [] ==> r == []
    ensures r == [] <==> Trim(seg, cls, Cut(seg, tagger, text, [])) == []
    ensures cls.isSpace(' ') && r != [] ==> Split(r, " ") == Trim(seg, cls, Cut(seg, tagger, text, []))
  {
    var words := Trim(seg, cls, Cut(seg, tagger, text, []));
    if words == [] then Join(words, " ")
    else
      JoinNonEmpty(words, " ");
      if cls.isSpace(' ') then
        SpaceFree(seg, cls, words);
        JoinSplit(words, " ");
        Join(words, " ")
      else Join(words, " ")
  }

  /** Trimmed tokens hold no space rune. */
  lemma SpaceFree(seg: Segmenter, cls: RuneClass, words: seq<string>)
    requires cls.isSpace(' ')
    requires forall k :: 0 <= k < |words| ==> Clean(cls, words[k])
    ensures forall k :: 0 <= k < |words| ==> " "[0] !in words[k]
  {
  }

  /** SegmentTextForQuery: the same pipeline, so a query segments exactly as indexed text does. */
  function SegmentTextForQuery(seg: Segmenter, cls: RuneClass, tagger: string -> seq<Tag>, query: string): (r: string)
    requires Valid(seg.dict) && Fits(tagger)
    ensures r == SegmentTextForIndex(seg, cls, tagger, query)
  {
    Join(Trim(seg, cls, Cut(seg, tagger, query, [])), " ")
  }
}
