/**
 * The dictionary of the segmentation engine (engine.go: Token, Dictionary,
 * NewToken, AddToken, Find).
 *
 * The cedar double-array trie is abstracted as the two things Find can
 * observe: the set of trie nodes, which is every prefix of every stored key
 * (the root being the empty prefix), and the map from stored keys to their
 * index in the append-only token table.
 */
module Dictionary {
  import opened Wrappers
  import opened Strings

  /** A dictionary word: its text runs, frequency, part of speech and cost. */
  datatype Token = Token(text: seq<string>, freq: real, pos: string, distance: int)

  /** The trie key of a token: its runs joined (textSliceToBytes). */
  function Key(t: Token): string {
    Concat(t.text)
  }

  /**
   * NewToken. The cost is float32(math.Log(totalFreq / freq)), abstracted
   * as `logOf` applied to the ratio; a token whose frequency is not
   * positive costs nothing.
   */
  function NewToken(text: seq<string>, freq: real, pos: string, totalFreq: real, logOf: real -> int): (t: Token)
    ensures t.text == text && t.freq == freq && t.pos == pos
    ensures freq > 0.0 ==> t.distance == logOf(totalFreq / freq)
    ensures freq <= 0.0 ==> t.distance == 0
  {
    Token(text, freq, pos, if freq > 0.0 then logOf(totalFreq / freq) else 0)
  }

  datatype Dict = Dict(nodes: set<string>, trie: map<string, nat>, maxTokenLen: nat, tokens: seq<Token>, totalFreq: real)

  /** The trie nodes on the path of one key, root included. */
  function Prefixes(k: string): (r: set<string>)
    ensures forall w :: w in r <==> w <= k
  {
    if k == [] then {[]}
    else
      var shorter := k[..|k| - 1];
      var r := Prefixes(shorter) + {k};
      forall w
        ensures w in r <==> w <= k
      {
        if w <= k && w != k {
          assert w == k[..|w|];
        }
      }
      r
  }

  /** NewDict: an empty trie, which has only its root node. */
  function NewDict(): (d: Dict)
    ensures Valid(d)
    ensures d.trie == map[] && d.tokens == []
    ensures d.totalFreq == 0.0 && d.maxTokenLen == 0
  {
    Dict({[]}, map[], 0, [], 0.0)
  }

  /**
   * The trie and the token table agree: every key points at a token with
   * that key, and the nodes are exactly the prefixes of the keys.
   */
  ghost predicate Valid(d: Dict) {
    && Indexed(d)
    && (forall k :: k in d.trie ==> Key(d.tokens[d.trie[k]]) == k)
    && [] in d.nodes
    && (forall w :: w in d.nodes ==> w == [] || exists k :: k in d.trie && w <= k)
    && (forall w, k :: k in d.trie && w <= k ==> w in d.nodes)
  }

  /**
   * The part of Valid that cost lookups need: every stored key indexes the
   * token table.
   */
  predicate Indexed(d: Dict) {
    forall k :: k in d.trie ==> d.trie[k] < |d.tokens|
  }

  function Max(a: nat, b: nat): nat {
    if a < b then b else a
  }

  /**
   * AddToken: first insert wins. A token whose key is already stored is
   * ignored; a new one is appended and its key indexed at the old length
   * of the table.
   */
  function AddToken(d: Dict, t: Token): (r: Dict)
    requires Valid(d)
    ensures Valid(r)
    ensures Key(t) in d.trie ==> r == d
    ensures Key(t) !in d.trie ==>
              && r.trie == d.trie[Key(t) := |d.tokens|]
              && r.tokens == d.tokens + [t]
              && r.totalFreq == d.totalFreq + t.freq
              && r.maxTokenLen == Max(d.maxTokenLen, |t.text|)
  {
    var key := Key(t);
    if key in d.trie then d
    else
      var r := Dict(d.nodes + Prefixes(key), d.trie[key := |d.tokens|],
                    if |t.text| > d.maxTokenLen then |t.text| else d.maxTokenLen,
                    d.tokens + [t], d.totalFreq + t.freq);
      assert forall i :: 0 <= i < |d.tokens| ==> r.tokens[i] == d.tokens[i];
      forall w | w in r.nodes && w != []
        ensures exists k :: k in r.trie && w <= k
      {
        if w in d.nodes {
          var k :| k in d.trie && w <= k;
          assert k in r.trie;
        } else {
          assert key in r.trie && w <= key;
        }
      }
      r
  }

  /** AddToken only grows the dictionary: old tokens and keys stay, and the one new key is the token's. */
  lemma AddTokenGrows(d: Dict, t: Token)
    requires Valid(d)
    ensures d.tokens <= AddToken(d, t).tokens
    ensures forall k :: k in d.trie ==> k in AddToken(d, t).trie && AddToken(d, t).trie[k] == d.trie[k]
    ensures forall k :: k in AddToken(d, t).trie <==> k in d.trie || k == Key(t)
  {
  }

  /** The result of Find: the token, and whether the walk through the trie succeeded. */
  datatype Found = Found(token: Option<Token>, ok: bool)

  /** `w` is a non-empty proper prefix of a stored key. */
  ghost predicate ProperPrefixOfKey(d: Dict, w: string) {
    w != [] && exists k :: k in d.trie && w < k
  }

  /**
   * Find: the stored token for an exact key; `ok` without a token for a
   * non-empty proper prefix of a key (the walk ends on an inner node);
   * nothing otherwise.
   */
  function Find(d: Dict, word: string): (r: Found)
    requires Valid(d)
    ensures r.token.Some? <==> word in d.trie
    ensures word in d.trie ==> r.ok && r.token.value == d.tokens[d.trie[word]] && Key(r.token.value) == word
    ensures word !in d.trie ==> (r.ok <==> ProperPrefixOfKey(d, word))
  {
    if word !in d.nodes then Found(None, false)
    else if word in d.trie then Found(Some(d.tokens[d.trie[word]]), true)
    else
      assert word != [] ==> exists k :: k in d.trie && word < k by {
        if word != [] {
          var k :| k in d.trie && word <= k;
          assert word != k;
        }
      }
      Found(None, word != [])
  }

  /**
   * Adding a token changes Find only at the prefixes of its key: the new
   * key finds the new token unless it was already stored, and the earlier
   * answers are kept.
   */
  lemma FindAfterAdd(d: Dict, t: Token, w: string)
    requires Valid(d)
    ensures Key(t) in d.trie ==> Find(AddToken(d, t), w) == Find(d, w)
    ensures Key(t) !in d.trie && w == Key(t) ==> Find(AddToken(d, t), w) == Found(Some(t), true)
    ensures w != Key(t) ==> Find(AddToken(d, t), w).token == Find(d, w).token
    ensures w != Key(t) ==>
              (Find(AddToken(d, t), w).ok <==> Find(d, w).ok || (w != [] && w <= Key(t)))
  {
    var r := AddToken(d, t);
    if Key(t) !in d.trie && w != Key(t) && w !in d.trie {
      if w != [] && w <= Key(t) {
        assert w < Key(t);
        assert Key(t) in r.trie;
      }
      if ProperPrefixOfKey(r, w) {
        var k :| k in r.trie && w < k;
        if k != Key(t) {
          assert k in d.trie;
        }
      }
    }
  }
}
