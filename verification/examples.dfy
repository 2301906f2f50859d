/**
 * The behaviour the segmenter's tests expect, worked out on small
 * dictionaries, with the word costs and the HMM tagger left arbitrary.
 */
module Examples {
  import opened Wrappers
  import opened Strings
  import opened Dictionary
  import opened Dag
  import opened Routes
  import opened Hmm
  import opened Engine
  import opened Api
  import opened Pagination

  /** A one-run dictionary word of frequency 1 and the given cost. */
  function Word(w: string, cost: int): (t: Token)
    ensures Key(t) == w
  {
    assert Concat([w]) == w + Concat([]);
    Token([w], 1.0, "", cost)
  }

  /** The dictionary {北京, 天安门}. */
  function Beijing(c1: int, c2: int): (d: Dict)
    ensures Valid(d)
    ensures d.trie == map["北京" := 0, "天安门" := 1]
  {
    AddToken(AddToken(NewDict(), Word("北京", c1)), Word("天安门", c2))
  }

  /** The slices of 北京天安门 are their own lower-case form. */
  lemma BeijingLower(a: nat, b: nat)
    requires a <= b < 5
    ensures ToLower("北京天安门"[a..b + 1]) == "北京天安门"[a..b + 1]
  {
    ToLowerNoUpper("北京天安门"[a..b + 1]);
  }

  /** Only 北京 (runes 0..1) and 天安门 (runes 2..4) are words of 北京天安门. */
  lemma BeijingWords(d: Dict, a: nat, b: nat)
    requires d.trie == map["北京" := 0, "天安门" := 1] && a <= b < 5
    ensures IsWord(d, "北京天安门", a, b) <==> (a == 0 && b == 1) || (a == 2 && b == 4)
  {
    var text := "北京天安门";
    var w := text[a..b + 1];
    BeijingLower(a, b);
    if a == 0 && b == 1 {
      assert w == [text[0], text[1]];
    } else if a == 2 && b == 4 {
      assert w == [text[2], text[3], text[4]];
    } else if |w| == 2 {
      assert w[0] != '北';
    } else if |w| == 3 {
      assert w[0] != '天';
    }
  }

  /** The route table of 北京天安门 takes 北京 at 0 and 天安门 at 2. */
  lemma BeijingRoutes(c1: int, c2: int)
    ensures var text := "北京天安门";
            var rm := RouteTable(Beijing(c1, c2), text, GetDAG(Beijing(c1, c2), text));
            rm[0].index == 1 && rm[2].index == 4
  {
    var d := Beijing(c1, c2);
    var text := "北京天安门";
    forall j | 0 <= j < 5
      ensures IsWord(d, text, 0, j) <==> j == 1
    {
      BeijingWords(d, 0, j);
    }
    forall j | 2 <= j < 5
      ensures IsWord(d, text, 2, j) <==> j == 4
    {
      BeijingWords(d, 2, j);
    }
    RouteTableForced(d, text, 0, 1);
    RouteTableForced(d, text, 2, 4);
  }

  /** Replaying routes that take runes 0..1 and 2..4 gives 北京 and 天安门. */
  lemma ReplayBeijing(tagger: string -> seq<Tag>, rm: map<int, Route>)
    requires Fits(tagger) && Table(rm, 5) && rm[0].index == 1 && rm[2].index == 4
    ensures Replay(tagger, "北京天安门", rm, false, 0) == ["北京", "天安门"]
  {
    var text := "北京天安门";
    ReplayPlain(tagger, text, rm, 0);
    ReplayPlain(tagger, text, rm, 2);
    assert text[0..2] == "北京";
    assert text[2..5] == "天安门";
  }

  /** No rune of 北京天安门 is ASCII. */
  lemma BeijingNonAscii()
    ensures forall k :: 0 <= k < |"北京天安门"| ==> "北京天安门"[k] as int >= 0x80
  {
  }

  /**
   * With the dictionary {北京, 天安门}, Cut splits 北京天安门 into its two
   * words, with the HMM on and whatever the costs.
   */
  lemma CutBeijing(c1: int, c2: int, tagger: string -> seq<Tag>)
    requires Fits(tagger)
    ensures Cut(Segmenter(Beijing(c1, c2), " ", {}), tagger, "北京天安门", []) == ["北京", "天安门"]
  {
    BeijingNonAscii();
    var d := Beijing(c1, c2);
    var text := "北京天安门";
    CutNonAscii(d, tagger, text);
    RouteTableIsTable(d, text);
    BeijingRoutes(c1, c2);
    ReplayBeijing(tagger, RouteTable(d, text, GetDAG(d, text)));
  }

  /** Adding a word that is not yet stored indexes it at the old table length. */
  function AddWord(d: Dict, w: string, cost: int): (r: Dict)
    requires Valid(d) && w !in d.trie
    ensures Valid(r)
    ensures r.trie == d.trie[w := |d.tokens|] && |r.tokens| == |d.tokens| + 1
  {
    AddToken(d, Word(w, cost))
  }

  /** The four sentence words are distinct: their first runes differ. */
  lemma SentenceKeysDistinct()
    ensures "用于" != "一个"
    ensures "测试" != "一个" && "测试" != "用于"
    ensures "句子" != "一个" && "句子" != "用于" && "句子" != "测试"
  {
    assert "用于"[0] != "一个"[0];
    assert "测试"[0] != "一个"[0] && "测试"[0] != "用于"[0];
    assert "句子"[0] != "一个"[0] && "句子"[0] != "用于"[0] && "句子"[0] != "测试"[0];
  }

  /** The dictionary {一个, 用于}. */
  function SentenceStart(c0: int, c1: int): (d: Dict)
    ensures Valid(d)
    ensures d.trie == map["一个" := 0, "用于" := 1] && |d.tokens| == 2
  {
    SentenceKeysDistinct();
    var d1 := AddWord(NewDict(), "一个", c0);
    assert d1.trie == map["一个" := 0] && |d1.tokens| == 1;
    AddWord(d1, "用于", c1)
  }

  /** The dictionary {一个, 用于, 测试}. */
  function SentenceThree(c0: int, c1: int, c2: int): (d: Dict)
    ensures Valid(d)
    ensures d.trie == map["一个" := 0, "用于" := 1, "测试" := 2] && |d.tokens| == 3
  {
    SentenceKeysDistinct();
    var d2 := SentenceStart(c0, c1);
    assert "测试" !in d2.trie;
    AddWord(d2, "测试", c2)
  }

  /** The dictionary {一个, 用于, 测试, 句子}. */
  function Sentence(c0: int, c1: int, c2: int, c3: int): (d: Dict)
    ensures Valid(d)
    ensures d.trie == map["一个" := 0, "用于" := 1, "测试" := 2, "句子" := 3]
  {
    var d3 := SentenceThree(c0, c1, c2);
    assert "句子" !in d3.trie by {
      assert "句子"[0] != "一个"[0] && "句子"[0] != "用于"[0] && "句子"[0] != "测试"[0];
    }
    AddWord(d3, "句子", c3)
  }

  const SentenceText: string := "这是一个用于测试的句子"

  /** The keys of the sentence dictionary all have two runes. */
  lemma SentenceKeysTwoRunes(trie: map<string, nat>, w: string)
    requires trie == map["一个" := 0, "用于" := 1, "测试" := 2, "句子" := 3] && |w| != 2
    ensures w !in trie
  {
  }

  /** The two-rune slices of the sentence that are keys. */
  lemma SentencePairs(trie: map<string, nat>, a: nat)
    requires trie == map["一个" := 0, "用于" := 1, "测试" := 2, "句子" := 3] && a < 10
    ensures SentenceText[a..a + 2] in trie <==> a == 2 || a == 4 || a == 6 || a == 9
  {
    var text := SentenceText;
    assert text[a..a + 2] == [text[a], text[a + 1]];
  }

  /** The words of the sentence: 一个, 用于, 测试 and 句子 at runes 2, 4, 6 and 9. */
  lemma SentenceWords(d: Dict, a: nat, b: nat)
    requires d.trie == map["一个" := 0, "用于" := 1, "测试" := 2, "句子" := 3] && a <= b < 11
    ensures IsWord(d, SentenceText, a, b) <==> b == a + 1 && (a == 2 || a == 4 || a == 6 || a == 9)
  {
    var w := SentenceText[a..b + 1];
    ToLowerNoUpper(w);
    if b != a + 1 {
      SentenceKeysTwoRunes(d.trie, w);
    } else {
      SentencePairs(d.trie, a);
    }
  }

  /** Where a route of the sentence starts: 这 and 是 and 的 alone, the four words whole. */
  lemma SentenceRoute(d: Dict, a: nat)
    requires Valid(d) && d.trie == map["一个" := 0, "用于" := 1, "测试" := 2, "句子" := 3]
    requires a == 0 || a == 1 || a == 2 || a == 4 || a == 6 || a == 8 || a == 9
    ensures RouteTable(d, SentenceText, GetDAG(d, SentenceText))[a].index
              == if a == 2 || a == 4 || a == 6 || a == 9 then a + 1 else a
  {
    var text := SentenceText;
    if a == 2 || a == 4 || a == 6 || a == 9 {
      forall j | a <= j < 11
        ensures IsWord(d, text, a, j) <==> j == a + 1
      {
        SentenceWords(d, a, j);
      }
      RouteTableForced(d, text, a, a + 1);
    } else {
      forall j | a <= j < 11
        ensures !IsWord(d, text, a, j)
      {
        SentenceWords(d, a, j);
      }
      RouteTableUnknown(d, text, a);
    }
  }

  /** Replaying the sentence's routes gives 这, 是, 一个, 用于, 测试, 的, 句子. */
  lemma ReplaySentence(tagger: string -> seq<Tag>, rm: map<int, Route>)
    requires Fits(tagger) && Table(rm, 11)
    requires rm[0].index == 0 && rm[1].index == 1 && rm[2].index == 3 && rm[4].index == 5
    requires rm[6].index == 7 && rm[8].index == 8 && rm[9].index == 10
    ensures Replay(tagger, SentenceText, rm, false, 0) == ["这", "是", "一个", "用于", "测试", "的", "句子"]
  {
    ReplayFollowsRoutes(tagger, SentenceText, rm, 0);
    SentenceEnds(rm);
    SentenceWordsOf();
  }

  /** The sentence's routes end at runes 0, 1, 3, 5, 7, 8 and 10. */
  lemma SentenceEnds(rm: map<int, Route>)
    requires Table(rm, 11)
    requires rm[0].index == 0 && rm[1].index == 1 && rm[2].index == 3 && rm[4].index == 5
    requires rm[6].index == 7 && rm[8].index == 8 && rm[9].index == 10
    ensures RouteEnds(rm, 0, 11) == [0, 1, 3, 5, 7, 8, 10]
  {
    EndsStep(rm, 11, 9, []);
    EndsStep(rm, 11, 8, [10]);
    EndsStep(rm, 11, 6, [8, 10]);
    EndsStep(rm, 11, 4, [7, 8, 10]);
    EndsStep(rm, 11, 2, [5, 7, 8, 10]);
    EndsStep(rm, 11, 1, [3, 5, 7, 8, 10]);
    EndsStep(rm, 11, 0, [1, 3, 5, 7, 8, 10]);
  }

  /** The segmentation from idx is the route's end there followed by the segmentation after it. */
  lemma EndsStep(rm: map<int, Route>, n: nat, idx: nat, tail: seq<nat>)
    requires Table(rm, n) && idx < n && RouteEnds(rm, rm[idx].index + 1, n) == tail
    ensures RouteEnds(rm, idx, n) == [rm[idx].index] + tail
  {
  }

  /** Cutting the sentence at those ends gives its seven words. */
  lemma SentenceWordsOf()
    ensures WordsOf(SentenceText, 0, [0, 1, 3, 5, 7, 8, 10]) == ["这", "是", "一个", "用于", "测试", "的", "句子"]
  {
    var ws := ["这", "是", "一个", "用于", "测试", "的", "句子"];
    SentenceConcat();
    assert SentenceText[0..] == SentenceText;
    assert EndsOf(ws, 0) == [0, 1, 3, 5, 7, 8, 10];
    WordsOfConcat(SentenceText, 0, ws);
  }

  /** The sentence is its seven words laid end to end. */
  lemma SentenceConcat()
    ensures Concat(["这", "是", "一个", "用于", "测试", "的", "句子"]) == SentenceText
  {
    var ws := ["这", "是", "一个", "用于", "测试", "的", "句子"];
    assert Concat(ws[7..]) == "";
    assert Concat(ws[6..]) == "句子";
    assert Concat(ws[5..]) == "的句子";
    assert Concat(ws[4..]) == "测试的句子";
    assert Concat(ws[3..]) == "用于测试的句子";
    assert Concat(ws[2..]) == "一个用于测试的句子";
    assert Concat(ws[1..]) == "是一个用于测试的句子";
    assert ws[0..] == ws;
  }

  /** No rune of the sentence is ASCII. */
  lemma SentenceNonAscii()
    ensures forall k :: 0 <= k < |SentenceText| ==> SentenceText[k] as int >= 0x80
  {
  }

  /** Cut of the sentence, HMM on, whatever the costs and the tagger. */
  lemma CutSentence(d: Dict, tagger: string -> seq<Tag>)
    requires Valid(d) && d.trie == map["一个" := 0, "用于" := 1, "测试" := 2, "句子" := 3] && Fits(tagger)
    ensures CutText(d, tagger, SentenceText, true) == ["这", "是", "一个", "用于", "测试", "的", "句子"]
  {
    SentenceNonAscii();
    var text := SentenceText;
    CutNonAscii(d, tagger, text);
    RouteTableIsTable(d, text);
    SentenceRoute(d, 0);
    SentenceRoute(d, 1);
    SentenceRoute(d, 2);
    SentenceRoute(d, 4);
    SentenceRoute(d, 6);
    SentenceRoute(d, 8);
    SentenceRoute(d, 9);
    ReplaySentence(tagger, RouteTable(d, text, GetDAG(d, text)));
  }

  /** A slice of a clean text is clean. */
  lemma CleanSlice(cls: RuneClass, s: string, a: nat, b: nat)
    requires Clean(cls, s) && a <= b <= |s|
    ensures Clean(cls, s[a..b])
  {
    forall i | 0 <= i < b - a
      ensures !Dropped(cls, s[a..b][i])
    {
      assert s[a..b][i] == s[a + i];
    }
  }

  /** The words of a clean sentence are clean. */
  lemma SentenceWordsClean(cls: RuneClass)
    requires Clean(cls, SentenceText)
    ensures Clean(cls, "这") && Clean(cls, "是") && Clean(cls, "一个") && Clean(cls, "用于")
    ensures Clean(cls, "测试") && Clean(cls, "的") && Clean(cls, "句子")
  {
    var text := SentenceText;
    assert text[0..1] == "这" && text[1..2] == "是" && text[2..4] == "一个" && text[4..6] == "用于";
    assert text[6..8] == "测试" && text[8..9] == "的" && text[9..11] == "句子";
    CleanSlice(cls, text, 0, 1);
    CleanSlice(cls, text, 1, 2);
    CleanSlice(cls, text, 2, 4);
    CleanSlice(cls, text, 4, 6);
    CleanSlice(cls, text, 6, 8);
    CleanSlice(cls, text, 8, 9);
    CleanSlice(cls, text, 9, 11);
  }

  /** Trim drops the stop words 这, 是 and 的 and keeps the rest as they are. */
  lemma TrimSentence(seg: Segmenter, cls: RuneClass)
    requires seg.stopWords == {"这", "是", "的"} && Clean(cls, SentenceText)
    ensures Trim(seg, cls, ["这", "是", "一个", "用于", "测试", "的", "句子"]) == ["一个", "用于", "测试", "句子"]
  {
    var ws := ["这", "是", "一个", "用于", "测试", "的", "句子"];
    assert forall k :: 0 <= k < |ws| ==> Clean(cls, ws[k]) by {
      SentenceWordsClean(cls);
    }
    TrimClean(seg, cls, ws);
    KeptSentence(seg);
  }

  /** The stop words 这, 是 and 的 go; the four dictionary words stay. */
  lemma KeptSentence(seg: Segmenter)
    requires seg.stopWords == {"这", "是", "的"}
    ensures KeptOnly(seg, ["这", "是", "一个", "用于", "测试", "的", "句子"]) == ["一个", "用于", "测试", "句子"]
  {
    var ws := ["这", "是", "一个", "用于", "测试", "的", "句子"];
    var kept := ["一个", "用于", "测试", "句子"];
    SentenceStops(seg);
    assert KeptOnly(seg, ws[6..]) == kept[3..] by {
      assert ws[6..] == ["句子"] && ws[6..][1..] == [];
    }
    assert KeptOnly(seg, ws[5..]) == kept[3..] by {
      assert ws[5..][0] == "的" && ws[5..][1..] == ws[6..];
    }
    assert KeptOnly(seg, ws[4..]) == kept[2..] by {
      assert ws[4..][0] == "测试" && ws[4..][1..] == ws[5..];
    }
    assert KeptOnly(seg, ws[3..]) == kept[1..] by {
      assert ws[3..][0] == "用于" && ws[3..][1..] == ws[4..];
    }
    assert KeptOnly(seg, ws[2..]) == kept by {
      assert ws[2..][0] == "一个" && ws[2..][1..] == ws[3..];
    }
    assert KeptOnly(seg, ws[1..]) == kept by {
      assert ws[1..][0] == "是" && ws[1..][1..] == ws[2..];
    }
    assert ws[0] == "这";
  }

  /** Which words of the sentence are stop words. */
  lemma SentenceStops(seg: Segmenter)
    requires seg.stopWords == {"这", "是", "的"}
    ensures !Kept(seg, "这") && !Kept(seg, "是") && !Kept(seg, "的")
    ensures Kept(seg, "一个") && Kept(seg, "用于") && Kept(seg, "测试") && Kept(seg, "句子")
  {
  }

  lemma JoinSentence()
    ensures Join(["一个", "用于", "测试", "句子"], " ") == "一个 用于 测试 句子"
  {
    assert Join(["句子"], " ") == "句子";
    assert ["测试", "句子"][1..] == ["句子"];
    assert Join(["测试", "句子"], " ") == "测试 句子";
    assert ["用于", "测试", "句子"][1..] == ["测试", "句子"];
    assert Join(["用于", "测试", "句子"], " ") == "用于 测试 句子";
    assert ["一个", "用于", "测试", "句子"][1..] == ["用于", "测试", "句子"];
  }

  /**
   * With a dictionary {一个, 用于, 测试, 句子} and the stop words
   * {这, 是, 的}, the sentence is indexed as "一个 用于 测试 句子", whatever
   * the costs and the tagger, provided its runes are not symbols, spaces or
   * punctuation.
   */
  lemma IndexSentence(d: Dict, cls: RuneClass, tagger: string -> seq<Tag>)
    requires Valid(d) && d.trie == map["一个" := 0, "用于" := 1, "测试" := 2, "句子" := 3]
    requires Clean(cls, SentenceText) && Fits(tagger)
    ensures SegmentTextForIndex(Segmenter(d, " ", {"这", "是", "的"}), cls, tagger, SentenceText)
              == "一个 用于 测试 句子"
  {
    var seg := Segmenter(d, " ", {"这", "是", "的"});
    CutDefaultsToHmm(seg, tagger, SentenceText, []);
    CutSentence(d, tagger);
    TrimSentence(seg, cls);
    JoinSentence();
  }

  /** The same for the dictionary built by AddToken, whatever the four costs. */
  lemma IndexSentenceLoaded(c0: int, c1: int, c2: int, c3: int, cls: RuneClass, tagger: string -> seq<Tag>)
    requires Clean(cls, SentenceText) && Fits(tagger)
    ensures SegmentTextForIndex(Segmenter(Sentence(c0, c1, c2, c3), " ", {"这", "是", "的"}), cls, tagger, SentenceText)
              == "一个 用于 测试 句子"
  {
    IndexSentence(Sentence(c0, c1, c2, c3), cls, tagger);
  }

  /**
   * A word listed twice is stored once, with the first line's token, but
   * both lines count towards the returned total, which then exceeds the
   * dictionary's own total.
   */
  lemma DuplicateLineCountsTwice(parse: string -> Option<real>, logOf: real -> int)
    ensures var r := LoadLines(NewDict(), ["a", "a"], " ", parse, logOf);
            && r.total == 2.0 && r.dict.totalFreq == 1.0 && |r.dict.tokens| == 1
  {
    ParseLineWordOnly("a", " ", parse);
    var e := Entry("a", 1.0, "");
    var d1 := AddToken(NewDict(), EntryToken(e, logOf));
    assert ["a", "a"][1..] == ["a"];
    assert ["a"][1..] == [];
    assert LoadLines(d1, ["a"], " ", parse, logOf) == Loaded(d1, 1.0);
  }

  /** Page 5 of 10: gaps on both sides of the window 3..7, page 5 not a link. */
  lemma FifthOfTen()
    ensures GeneratePagination(5, 10).value.pages == [
      Page(1, true), Ellipsis, Page(3, true), Page(4, true), Page(5, false),
      Page(6, true), Page(7, true), Ellipsis, Page(10, true)]
  {
    var raw := RawPages(5, 10);
    assert Span(3, 7) == [Page(3, true), Page(4, true), Page(5, true), Page(6, true), Page(7, true)];
    assert raw == [Page(1, true), Ellipsis, Page(3, true), Page(4, true), Page(5, true),
      Page(6, true), Page(7, true), Ellipsis, Page(10, true)];
    var ps := MarkCurrent(raw, 5);
    var want := [Page(1, true), Ellipsis, Page(3, true), Page(4, true), Page(5, false),
      Page(6, true), Page(7, true), Ellipsis, Page(10, true)];
    forall k | 0 <= k < 9
      ensures ps[k] == want[k]
    {
      MarkCurrentAt(raw, 5, k);
    }
  }
}
