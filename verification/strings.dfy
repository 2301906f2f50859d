/**
 * Text helpers of the segmentation engine (engine.go: toLower,
 * SplitTextToWords, the textSlice* joiners) together with the few Go
 * standard-library string functions the engine and its loaders rely on
 * (strings.Split, strings.Join, bufio.ScanLines, UTF-8 byte length).
 *
 * Text is modelled as a sequence of runes. Go's `toLower` works on the
 * UTF-8 bytes, but every byte of a multi-byte UTF-8 sequence is >= 0x80,
 * so lower-casing the bytes 'A'..'Z' is the same as lower-casing the
 * ASCII runes 'A'..'Z'.
 */
module Strings {

  // ---------------------------------------------------------------------------
  // Character classes and lower-casing
  // ---------------------------------------------------------------------------

  predicate IsUpper(c: char) {
    'A' <= c <= 'Z'
  }

  /** The ASCII-only alphanumeric test of SplitTextToWords. */
  predicate IsAlnum(c: char) {
    ('a' <= c <= 'z') || ('A' <= c <= 'Z') || ('0' <= c <= '9')
  }

  function LowerChar(c: char): char {
    if IsUpper(c) then (c as int + ('a' as int - 'A' as int)) as char else c
  }

  /** toLower: ASCII upper-case letters become lower-case, everything else is kept. */
  function ToLower(s: string): (r: string)
    ensures |r| == |s|
    ensures forall i :: 0 <= i < |s| ==> r[i] == LowerChar(s[i])
  {
    if s == [] then [] else [LowerChar(s[0])] + ToLower(s[1..])
  }

  /** toLower changes exactly the ASCII upper-case letters, each to its lower-case partner. */
  lemma ToLowerChangesOnlyUpper(s: string)
    ensures forall i :: 0 <= i < |s| ==> (ToLower(s)[i] != s[i] <==> IsUpper(s[i]))
    ensures forall i :: 0 <= i < |s| && IsUpper(s[i]) ==> 'a' <= ToLower(s)[i] <= 'z'
    ensures forall i :: 0 <= i < |s| ==> !IsUpper(ToLower(s)[i])
  {
  }

  /** Lower-casing twice is lower-casing once. */
  lemma ToLowerIdempotent(s: string)
    ensures ToLower(ToLower(s)) == ToLower(s)
  {
  }

  /** A text without 'A'..'Z' is its own lower-case form. */
  lemma ToLowerNoUpper(s: string)
    requires forall i :: 0 <= i < |s| ==> !IsUpper(s[i])
    ensures ToLower(s) == s
  {
  }

  lemma ToLowerAppend(a: string, b: string)
    ensures ToLower(a + b) == ToLower(a) + ToLower(b)
  {
  }

  // ---------------------------------------------------------------------------
  // Concatenation of text slices (textSliceToString / textSliceToBytes)
  // ---------------------------------------------------------------------------

  function Concat(ss: seq<string>): string {
    if ss == [] then [] else ss[0] + Concat(ss[1..])
  }

  lemma {:induction false} ConcatAppend(a: seq<string>, b: seq<string>)
    ensures Concat(a + b) == Concat(a) + Concat(b)
    decreases |a|
  {
    if a == [] {
      assert a + b == b;
    } else {
      assert (a + b)[1..] == a[1..] + b;
      ConcatAppend(a[1..], b);
    }
  }

  // ---------------------------------------------------------------------------
  // UTF-8 byte length (Go's len on a string)
  // ---------------------------------------------------------------------------

  /** Number of bytes of the UTF-8 encoding of one rune. */
  function RuneLen(c: char): nat {
    if c as int < 0x80 then 1
    else if c as int < 0x800 then 2
    else if c as int < 0x10000 then 3
    else 4
  }

  function Utf8Len(s: string): (n: nat)
    ensures n >= |s|
  {
    if s == [] then 0 else RuneLen(s[0]) + Utf8Len(s[1..])
  }

  /** A text is one byte long exactly when it is a single ASCII rune. */
  lemma Utf8LenOne(s: string)
    ensures Utf8Len(s) == 1 <==> |s| == 1 && s[0] as int < 0x80
  {
    if |s| == 1 {
      assert s[1..] == [];
    }
  }

  // ---------------------------------------------------------------------------
  // SplitTextToWords
  // ---------------------------------------------------------------------------

  /** Every rune of `s` is alphanumeric exactly when `alnum` holds. */
  predicate RunOf(s: string, alnum: bool) {
    forall i :: 0 <= i < |s| ==> IsAlnum(s[i]) == alnum
  }

  /**
   * The loop of SplitTextToWords. `text` is the part of the input not yet
   * emitted, `current` how many of its runes belong to the open run, and
   * `inAlnum` the class of that run.
   */
  function SplitFrom(text: string, current: nat, inAlnum: bool): (r: seq<string>)
    requires current <= |text|
    requires RunOf(text[..current], inAlnum)
    ensures |r| >= 1
    ensures Concat(r) == ToLower(text)
    ensures current > 0 ==> |r[0]| > 0
    ensures forall j :: 1 <= j < |r| ==> |r[j]| > 0
    ensures forall j :: 0 <= j < |r| ==> RunOf(r[j], inAlnum == (j % 2 == 0))
    decreases |text| - current
  {
    if current == |text| then
      assert text[..current] == text;
      LowerRun(text, inAlnum);
      [ToLower(text)]
    else
      var isAlnum := IsAlnum(text[current]);
      if isAlnum != inAlnum then
        var head := ToLower(text[..current]);
        var rest := SplitFrom(text[current..], 1, isAlnum);
        SplitStep(text, current, inAlnum, rest);
        [head] + rest
      else
        RunGrows(text, current, isAlnum);
        SplitFrom(text, current + 1, isAlnum)
  }

  /** A run extended by one rune of its own class is still a run. */
  lemma RunGrows(text: string, current: nat, alnum: bool)
    requires current < |text| && RunOf(text[..current], alnum) && IsAlnum(text[current]) == alnum
    ensures RunOf(text[..current + 1], alnum)
  {
    assert text[..current + 1] == text[..current] + [text[current]];
  }

  /** Lower-casing keeps every rune in its class. */
  lemma LowerRun(s: string, alnum: bool)
    requires RunOf(s, alnum)
    ensures RunOf(ToLower(s), alnum)
  {
  }

  /** Closing the open run at `current` and prepending it to the runs of the rest. */
  lemma SplitStep(text: string, current: nat, inAlnum: bool, rest: seq<string>)
    requires current <= |text|
    requires RunOf(text[..current], inAlnum)
    requires |rest| >= 1 && Concat(rest) == ToLower(text[current..])
    requires forall j :: 0 <= j < |rest| ==> |rest[j]| > 0
    requires forall j :: 0 <= j < |rest| ==> RunOf(rest[j], !inAlnum == (j % 2 == 0))
    ensures Concat([ToLower(text[..current])] + rest) == ToLower(text)
    ensures forall j :: 1 <= j < |rest| + 1 ==> |([ToLower(text[..current])] + rest)[j]| > 0
    ensures forall j :: 0 <= j < |rest| + 1 ==>
              RunOf(([ToLower(text[..current])] + rest)[j], inAlnum == (j % 2 == 0))
  {
    var head := ToLower(text[..current]);
    var r := [head] + rest;
    ToLowerAppend(text[..current], text[current..]);
    assert text == text[..current] + text[current..];
    assert r[1..] == rest;
    forall j | 0 <= j < |r|
      ensures RunOf(r[j], inAlnum == (j % 2 == 0))
    {
      if j == 0 {
        assert r[0] == head;
      } else {
        assert r[j] == rest[j - 1];
        assert (j - 1) % 2 == 0 <==> j % 2 != 0;
      }
    }
  }

  /**
   * SplitTextToWords: cuts the lower-cased text into maximal runs that are
   * alternately ASCII-alphanumeric and not, starting with an alphanumeric
   * run (which is empty when the text does not start with one).
   */
  function SplitTextToWords(text: string): (r: seq<string>)
    ensures |r| >= 1
    ensures Concat(r) == ToLower(text)
    ensures forall j :: 1 <= j < |r| ==> |r[j]| > 0
    ensures forall j :: 0 <= j < |r| ==> RunOf(r[j], j % 2 == 0)
  {
    SplitFrom(text, 0, true)
  }

  // ---------------------------------------------------------------------------
  // strings.Join and strings.Split
  // ---------------------------------------------------------------------------

  /**
   * The reference definition of Go's strings.Join: the elements in order
   * with sep between neighbours, "" for no elements. SegmentTextForIndex
   * and SegmentTextForQuery join with it (api.go:66, api.go:72).
   */
  function Join(ss: seq<string>, sep: string): string {
    if |ss| == 0 then ""
    else if |ss| == 1 then ss[0]
    else ss[0] + sep + Join(ss[1..], sep)
  }

  /** `sep` occurs in `s` at offset `j`. */
  predicate OccursAt(s: string, sep: string, j: int) {
    0 <= j && j + |sep| <= |s| && s[j..j + |sep|] == sep
  }

  /** strings.Index: the offset of an occurrence of `sep` (the first, by IndexOfFirst), or -1. */
  function IndexOf(s: string, sep: string): (r: int)
    requires |sep| > 0
    ensures r >= -1
    ensures r >= 0 ==> OccursAt(s, sep, r)
    decreases |s|
  {
    if |s| < |sep| then -1
    else if s[..|sep|] == sep then 0
    else
      var k := IndexOf(s[1..], sep);
      if k < 0 then -1
      else
        assert s[1..][k..k + |sep|] == s[k + 1..k + 1 + |sep|];
        k + 1
  }

  /** IndexOf finds the first occurrence, and -1 means there is none. */
  lemma {:induction false} IndexOfFirst(s: string, sep: string)
    requires |sep| > 0
    ensures IndexOf(s, sep) >= 0 ==> forall j :: 0 <= j < IndexOf(s, sep) ==> !OccursAt(s, sep, j)
    ensures IndexOf(s, sep) < 0 ==> forall j :: !OccursAt(s, sep, j)
    decreases |s|
  {
    if |s| >= |sep| && s[..|sep|] != sep {
      IndexOfFirst(s[1..], sep);
      assert !OccursAt(s, sep, 0);
      forall j | 1 <= j
        ensures OccursAt(s, sep, j) <==> OccursAt(s[1..], sep, j - 1)
      {
        if j + |sep| <= |s| {
          assert s[1..][j - 1..j - 1 + |sep|] == s[j..j + |sep|];
        }
      }
    }
  }

  /**
   * strings.Split. An empty separator splits after every rune (and gives no
   * field at all for the empty text); otherwise the text is cut at every
   * non-overlapping occurrence of `sep`, from the left.
   */
  function Split(s: string, sep: string): (r: seq<string>)
    ensures sep != [] ==> |r| >= 1
    ensures sep == [] ==> |r| == |s| && forall i :: 0 <= i < |s| ==> r[i] == [s[i]]
  {
    if sep == [] then Runes(s) else SplitOn(s, sep)
  }

  /** The fields of `s` between the occurrences of a non-empty `sep`. */
  function SplitOn(s: string, sep: string): (r: seq<string>)
    requires sep != []
    ensures |r| >= 1
    decreases |s|
  {
    var i := IndexOf(s, sep);
    if i < 0 then [s] else [s[..i]] + SplitOn(s[i + |sep|..], sep)
  }

  /** The one-rune texts of `s`, in order: strings.Split with an empty separator. */
  function Runes(s: string): (r: seq<string>)
    ensures |r| == |s|
    ensures forall i :: 0 <= i < |s| ==> r[i] == [s[i]]
  {
    if s == [] then [] else [[s[0]]] + Runes(s[1..])
  }

  /** Joining the fields of a split with the same separator gives back the text. */
  lemma {:induction false} SplitJoin(s: string, sep: string)
    requires sep != []
    ensures Join(Split(s, sep), sep) == s
    decreases |s|
  {
    SplitOnJoin(s, sep);
  }

  lemma {:induction false} SplitOnJoin(s: string, sep: string)
    requires sep != []
    ensures Join(SplitOn(s, sep), sep) == s
    decreases |s|
  {
    var i := IndexOf(s, sep);
    if i >= 0 {
      var rest := s[i + |sep|..];
      SplitOnJoin(rest, sep);
      var fields := SplitOn(rest, sep);
      var ss := [s[..i]] + fields;
      SplitAtFirst(s, sep, i);
      assert |ss| >= 2 && ss[0] == s[..i] && ss[1..] == fields;
      assert Join(ss, sep) == s[..i] + sep + Join(fields, sep);
      assert s[i..i + |sep|] == sep;
      CutTwice(s, i, i + |sep|);
    }
  }

  /** A text is its three slices around two cut points. */
  lemma CutTwice(s: string, a: nat, b: nat)
    requires a <= b <= |s|
    ensures s == s[..a] + s[a..b] + s[b..]
  {
    assert s[..b] == s[..a] + s[a..b];
    assert s == s[..b] + s[b..];
  }

  /** The first field of a split is a prefix of the text. */
  lemma SplitFirstIsPrefix(s: string, sep: string)
    requires sep != []
    ensures Split(s, sep)[0] <= s
  {
    var i := IndexOf(s, sep);
    if i >= 0 {
      SplitAtFirst(s, sep, i);
    }
  }

  /** The first field of a split ends at the first occurrence of the separator. */
  lemma SplitAtFirst(s: string, sep: string, i: int)
    requires sep != [] && i == IndexOf(s, sep) && i >= 0
    ensures SplitOn(s, sep) == [s[..i]] + SplitOn(s[i + |sep|..], sep)
  {
  }

  /**
   * Splitting a join on a one-rune separator gives back the fields, provided
   * no field contains the separator.
   */
  lemma {:induction false} JoinSplit(ss: seq<string>, sep: string)
    requires |sep| == 1 && |ss| >= 1
    requires forall k :: 0 <= k < |ss| ==> sep[0] !in ss[k]
    ensures Split(Join(ss, sep), sep) == ss
    decreases |ss|
  {
    var s := Join(ss, sep);
    if |ss| == 1 {
      NoOccurrence(ss[0], sep);
    } else {
      var tail := Join(ss[1..], sep);
      assert s == ss[0] + sep + tail;
      var n := |ss[0]|;
      assert OccursAt(s, sep, n) by {
        assert s[n..n + 1] == sep;
      }
      forall j | 0 <= j < n
        ensures !OccursAt(s, sep, j)
      {
        assert s[j] == ss[0][j];
      }
      var i := IndexOf(s, sep);
      IndexOfFirst(s, sep);
      assert i == n;
      assert s[..i] == ss[0];
      assert s[i + |sep|..] == tail;
      SplitAtFirst(s, sep, i);
      JoinSplit(ss[1..], sep);
      assert [ss[0]] + ss[1..] == ss;
    }
  }

  lemma NoOccurrence(s: string, sep: string)
    requires |sep| == 1 && sep[0] !in s
    ensures IndexOf(s, sep) == -1
  {
  }

  // ---------------------------------------------------------------------------
  // bufio.Scanner with ScanLines
  // ---------------------------------------------------------------------------

  /** A trailing carriage return is dropped from every line. */
  function DropCR(line: string): string {
    if |line| > 0 && line[|line| - 1] == '\r' then line[..|line| - 1] else line
  }

  /**
   * The lines a bufio.Scanner yields: text up to each '\n' with a trailing
   * '\r' dropped, plus the unterminated remainder if it is not empty.
   */
  function ScanLines(s: string): (r: seq<string>)
    ensures |r| <= |s|
    decreases |s|
  {
    if s == [] then []
    else
      var i := IndexOf(s, "\n");
      if i < 0 then [DropCR(s)] else [DropCR(s[..i])] + ScanLines(s[i + 1..])
  }

  /** Lines written one per row, each followed by a newline. */
  function Terminated(lines: seq<string>): string {
    if lines == [] then "" else lines[0] + "\n" + Terminated(lines[1..])
  }

  predicate PlainLine(line: string) {
    '\n' !in line && (|line| == 0 || line[|line| - 1] != '\r')
  }

  /** Scanning a newline-terminated file gives back its lines. */
  lemma {:induction false} ScanLinesRoundTrip(lines: seq<string>)
    requires forall k :: 0 <= k < |lines| ==> PlainLine(lines[k])
    ensures ScanLines(Terminated(lines)) == lines
    decreases |lines|
  {
    if lines != [] {
      var s := Terminated(lines);
      var tail := Terminated(lines[1..]);
      var n := |lines[0]|;
      assert s == lines[0] + "\n" + tail;
      assert OccursAt(s, "\n", n) by {
        assert s[n..n + 1] == "\n";
      }
      forall j | 0 <= j < n
        ensures !OccursAt(s, "\n", j)
      {
        assert s[j] == lines[0][j];
      }
      IndexOfFirst(s, "\n");
      assert IndexOf(s, "\n") == n;
      assert s[..n] == lines[0];
      assert s[n + 1..] == tail;
      ScanLinesRoundTrip(lines[1..]);
      assert [lines[0]] + lines[1..] == lines;
    }
  }
}
