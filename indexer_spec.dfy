/**
 * The state of a `TwitterIQ` index (src/indexer.py) as a value, with the
 * operations that change it as functions and what they promise as lemmas.
 *
 * `TwitterIQ` is a dict from raw token to `PostingNode` (a frequency and a
 * postings list); every postings list is also an element of `all_postings`.
 * Here a node records the SLOT of its list in `allPostings`, so the one list
 * is reachable both ways, as in the source.
 */
module IndexerSpec {
  import opened Wrappers
  import opened Seqs

  type TweetId = string

  /** What a postings list holds: the id of the tweet being read when the list
      was touched, or `None` (the initial `__current_tweet_id`) if none had been. */
  type Posting = Option<TweetId>

  /** A `PostingNode`: its postings list is `allPostings[slot]`, and `freq` is
      the count the source keeps beside it. */
  datatype PostingNode = PostingNode(slot: nat, freq: int)

  /** The dict itself and `all_postings`. */
  datatype Index = Index(nodes: map<string, PostingNode>, allPostings: seq<seq<Posting>>)

  /** One line of the corpus: the tweet id and the tokens the user wrote. */
  datatype Tweet = Tweet(id: TweetId, content: seq<string>)

  /** Lines 48-50 of `__init__` on the words of one line: the id is the fourth
      word and the content the words from the sixth on; a line of fewer than four
      words raises `IndexError` (`None`). */
  function ParseLine(words: seq<string>): (r: Option<Tweet>)
    ensures r.Some? <==> |words| >= 4
  {
    if |words| < 4 then None
    else Some(Tweet(words[3], if |words| <= 5 then [] else words[5..]))
  }

  /** The words of a line are recovered by parsing, whatever the other columns hold. */
  lemma ParseLineFields(a: string, b: string, c: string, id: TweetId, d: string, content: seq<string>)
    ensures ParseLine([a, b, c, id, d] + content) == Some(Tweet(id, content))
    ensures ParseLine([a, b, c, id]) == Some(Tweet(id, []))
  {
    var w := [a, b, c, id, d] + content;
    assert w[5..] == content;
  }

  /** The tweets of a corpus, or `None` when some line is too short, in which
      case `__init__` raises and no index exists. */
  function ParseCorpus(lines: seq<seq<string>>): (r: Option<seq<Tweet>>)
    ensures r.None? <==> exists k :: 0 <= k < |lines| && |lines[k]| < 4
    ensures r.Some? ==> |r.value| == |lines| && forall k :: 0 <= k < |lines| ==> ParseLine(lines[k]) == Some(r.value[k])
    decreases |lines|
  {
    if lines == [] then Some([])
    else
      var init := lines[..|lines| - 1];
      var last := lines[|lines| - 1];
      match (ParseCorpus(init), ParseLine(last))
      case (Some(ts), Some(t)) =>
        assert forall k :: 0 <= k < |init| ==> init[k] == lines[k];
        Some(ts + [t])
      case _ =>
        assert forall k :: 0 <= k < |init| ==> init[k] == lines[k];
        None
  }

  /** The tables `__clean` consults: `string.punctuation` (searched as a string),
      the emoji of `emoji.UNICODE_EMOJI` and the English and German stop words
      of NLTK. */
  datatype Lexicon = Lexicon(punctuation: string, emoji: set<string>, stopWords: set<string>)

  // ---------------------------------------------------------------------------
  // __clean
  // ---------------------------------------------------------------------------

  /** The value of `string.punctuation`, for `Lexicon.punctuation`. */
  const PythonPunctuation: string := "!\"#$%&'()*+,-./:;<=>?@[\\]^_`{|}~"

  /** Python's `t in s` for two strings: `t` is a substring of `s`. */
  predicate Occurs(t: string, s: string)
    decreases |s|
  {
    t <= s || (s != [] && Occurs(t, s[1..]))
  }

  function LowerChar(c: char): char
  {
    if 'A' <= c <= 'Z' then (c as int + 32) as char else c
  }

  /** `str.lower`, on the ASCII letters: the result has the same length, each
      ASCII capital becomes the lowercase letter at the same place in the
      alphabet, and every other character is unchanged. */
  function Lower(s: string): (r: string)
    ensures |r| == |s|
    ensures forall i :: 0 <= i < |r| ==> !('A' <= r[i] <= 'Z')
    ensures forall i :: 0 <= i < |s| && !('A' <= s[i] <= 'Z') ==> r[i] == s[i]
    ensures forall i :: 0 <= i < |s| && 'A' <= s[i] <= 'Z' ==>
              'a' <= r[i] <= 'z' && r[i] as int - 'a' as int == s[i] as int - 'A' as int
  {
    seq(|s|, i requires 0 <= i < |s| => LowerChar(s[i]))
  }

  /** `__clean`: `None` for a token that is a piece of the punctuation string, an
      emoji, or (lowercased) a stop word; otherwise the lowercased token. */
  function Clean(lex: Lexicon, token: string): Option<string>
  {
    if Occurs(token, lex.punctuation) then None
    else if token in lex.emoji then None
    else if Lower(token) in lex.stopWords then None
    else Some(Lower(token))
  }

  /** `__index_tokens` tests `not self.__clean(token)`: Python truthiness of the result. */
  predicate Accepts(lex: Lexicon, token: string)
  {
    match Clean(lex, token)
    case None => false
    case Some(s) => s != ""
  }

  /** The cleaned value matters only as a truth value: a token is accepted exactly
      when `__clean` returns something, the empty token never is (it is a piece
      of every string), and what is returned is the lowercased token, which
      indexing then ignores. */
  lemma CleanIsOnlyATruthTest(lex: Lexicon, token: string)
    ensures Accepts(lex, token) <==> Clean(lex, token).Some?
    ensures Clean(lex, token).Some? ==> token != "" && Clean(lex, token).value == Lower(token)
  {
    if token == "" {
      assert "" <= lex.punctuation;
    }
  }

  /** The characters of `string.punctuation` are in strictly ascending order. */
  lemma PunctuationAscends()
    ensures forall i :: 0 <= i < |PythonPunctuation| - 1 ==> PythonPunctuation[i] < PythonPunctuation[i + 1]
  {
  }

  /** A string that starts at position `k` of `s` is a substring of `s`. */
  lemma {:induction false} OccursFrom(t: string, s: string, k: nat)
    requires k <= |s| && t <= s[k..]
    ensures Occurs(t, s)
    decreases k
  {
    if k > 0 {
      assert s[1..][k - 1..] == s[k..];
      OccursFrom(t, s[1..], k - 1);
    }
  }

  /** The window of `s` of the length of `t` starting at `k` is `t`. */
  predicate OccursAt(t: string, s: string, k: int)
  {
    0 <= k <= |s| - |t| && s[k..k + |t|] == t
  }

  /** `Occurs` is the substring test: `t` occurs in `s` exactly when some
      window of `s` of the length of `t` equals `t`. */
  lemma {:induction false} OccursIsSubstring(t: string, s: string)
    ensures Occurs(t, s) <==> exists k :: OccursAt(t, s, k)
    decreases |s|
  {
    if exists k :: OccursAt(t, s, k) {
      var k :| OccursAt(t, s, k);
      assert t <= s[k..];
      OccursFrom(t, s, k);
    }
    if Occurs(t, s) {
      if t <= s {
        assert OccursAt(t, s, 0);
      } else {
        OccursIsSubstring(t, s[1..]);
        var k :| OccursAt(t, s[1..], k);
        assert s[1..][k..k + |t|] == s[k + 1..k + 1 + |t|];
        assert OccursAt(t, s, k + 1);
      }
    }
  }

  /** A string whose first two characters are equal is no substring of a
      strictly ascending string. */
  lemma {:induction false} DoubledNotOccurs(t: string, s: string)
    requires |t| >= 2 && t[0] == t[1]
    requires forall i :: 0 <= i < |s| - 1 ==> s[i] < s[i + 1]
    ensures !Occurs(t, s)
    decreases |s|
  {
    if s != [] {
      var r := s[1..];
      forall i | 0 <= i < |r| - 1
        ensures r[i] < r[i + 1]
      {
        assert r[i] == s[i + 1] && r[i + 1] == s[i + 2];
      }
      DoubledNotOccurs(t, r);
    }
  }

  /** With the real punctuation string, `__clean` rejects a token only when it
      is a substring of it, such as `()` or `{|}~`; a run such as `...` or `!!`
      (any token starting with a doubled character) is no substring, so it is
      accepted unless it is an emoji or a stop word. */
  lemma PunctuationPieces(c: char, rest: string)
    ensures var lex := Lexicon(PythonPunctuation, {}, {});
      && !Accepts(lex, "()") && !Accepts(lex, "{|}~")
      && Accepts(lex, [c, c] + rest)
  {
    OccursFrom("()", PythonPunctuation, 7);
    OccursFrom("{|}~", PythonPunctuation, 28);
    PunctuationAscends();
    DoubledNotOccurs([c, c] + rest, PythonPunctuation);
  }

  /** The tokens `__index_tokens` reaches: those before the first one `__clean` rejects. */
  function CleanPrefix(lex: Lexicon, content: seq<string>): (p: seq<string>)
    ensures p <= content
    ensures forall i :: 0 <= i < |p| ==> Accepts(lex, p[i])
    ensures |p| < |content| ==> !Accepts(lex, content[|p|])
  {
    if content == [] || !Accepts(lex, content[0]) then []
    else [content[0]] + CleanPrefix(lex, content[1..])
  }

  // ---------------------------------------------------------------------------
  // The index and its invariant
  // ---------------------------------------------------------------------------

  const Empty := Index(map[], [])

  ghost predicate SlotsInRange(ix: Index)
  {
    forall t :: t in ix.nodes ==> ix.nodes[t].slot < |ix.allPostings|
  }

  /** `self[t].postings_list` for a token that is present. */
  function PostingsOf(ix: Index, t: string): seq<Posting>
    requires SlotsInRange(ix) && t in ix.nodes
  {
    ix.allPostings[ix.nodes[t].slot]
  }

  /** What building and querying keep true: one list in `allPostings` per key
      and one key per list, `freq` equal to the length of the list, and no list
      empty or holding an id twice. */
  ghost predicate Valid(ix: Index)
  {
    && SlotsInRange(ix)
    && |ix.nodes| == |ix.allPostings|
    && (forall t, u :: t in ix.nodes && u in ix.nodes && ix.nodes[t].slot == ix.nodes[u].slot ==> t == u)
    && (forall t :: t in ix.nodes ==> ix.nodes[t].freq == |PostingsOf(ix, t)|)
    && (forall t :: t in ix.nodes ==> PostingsOf(ix, t) != [] && NoDup(PostingsOf(ix, t)))
  }

  // ---------------------------------------------------------------------------
  // __missing__, self[token], __index_tokens
  // ---------------------------------------------------------------------------

  /** `__missing__(token)`: a new list `[cur]` at the end of `all_postings` and a
      node with `freq` 1 that refers to it. */
  function Missing(ix: Index, token: string, cur: Posting): (r: Index)
    requires SlotsInRange(ix)
    ensures SlotsInRange(r)
    ensures forall t :: t in r.nodes <==> t in ix.nodes || t == token
    ensures PostingsOf(r, token) == [cur] && r.nodes[token].freq == 1
    ensures forall u :: u in ix.nodes && u != token ==> r.nodes[u] == ix.nodes[u] && PostingsOf(r, u) == PostingsOf(ix, u)
  {
    Index(ix.nodes[token := PostingNode(|ix.allPostings|, 1)], ix.allPostings + [[cur]])
  }

  /** The index after `self[token]`, which calls `__missing__` for an absent token. */
  function Lookup(ix: Index, token: string, cur: Posting): (r: Index)
    requires SlotsInRange(ix)
    ensures SlotsInRange(r) && token in r.nodes
  {
    if token in ix.nodes then ix else Missing(ix, token, cur)
  }

  /** The list `self[token]` yields: the stored one, or `[cur]` for an absent token. */
  function Seeded(ix: Index, token: string, cur: Posting): seq<Posting>
    requires SlotsInRange(ix)
  {
    if token in ix.nodes then PostingsOf(ix, token) else [cur]
  }

  /** `self[token]` yields `Seeded`, keeps every existing entry, and keeps the invariant. */
  lemma LookupEffect(ix: Index, token: string, cur: Posting)
    requires Valid(ix)
    ensures Valid(Lookup(ix, token, cur))
    ensures PostingsOf(Lookup(ix, token, cur), token) == Seeded(ix, token, cur)
    ensures forall u :: u in ix.nodes ==> PostingsOf(Lookup(ix, token, cur), u) == PostingsOf(ix, u)
  {
    if token !in ix.nodes {
      MissingValid(ix, token, cur);
    }
  }

  /** `self[t1]` leaves what `self[t2]` yields unchanged, also when `t2 == t1`. */
  lemma SeededAfterLookup(ix: Index, t1: string, t2: string, cur: Posting)
    requires SlotsInRange(ix)
    ensures Seeded(Lookup(ix, t1, cur), t2, cur) == Seeded(ix, t2, cur)
  {
  }

  lemma MissingValid(ix: Index, token: string, cur: Posting)
    requires Valid(ix) && token !in ix.nodes
    ensures Valid(Missing(ix, token, cur))
  {
  }

  /** Lines 88-91 for a token that is present: append `cur` to its list and
      bump its `freq`. */
  function Append(ix: Index, token: string, cur: Posting): (r: Index)
    requires SlotsInRange(ix) && token in ix.nodes
    ensures SlotsInRange(r)
    ensures forall t :: t in r.nodes <==> t in ix.nodes
  {
    var node := ix.nodes[token];
    Index(ix.nodes[token := PostingNode(node.slot, node.freq + 1)],
          ix.allPostings[node.slot := ix.allPostings[node.slot] + [cur]])
  }

  /** One pass of the loop body of `__index_tokens` for an accepted token:
      `self[token]`, then `Append` if `cur` is not yet listed. */
  function IndexToken(ix: Index, token: string, cur: Posting): (r: Index)
    requires SlotsInRange(ix)
    ensures SlotsInRange(r)
    ensures forall t :: t in r.nodes <==> t in ix.nodes || t == token
  {
    var ix1 := Lookup(ix, token, cur);
    if cur in PostingsOf(ix1, token) then ix1 else Append(ix1, token, cur)
  }

  /** `IndexToken` for each of `tokens` in turn. */
  function IndexAll(ix: Index, tokens: seq<string>, cur: Posting): (r: Index)
    requires SlotsInRange(ix)
    ensures SlotsInRange(r)
    ensures forall t :: t in r.nodes <==> t in ix.nodes || t in tokens
    decreases |tokens|
  {
    if tokens == [] then ix
    else
      var init := tokens[..|tokens| - 1];
      assert tokens == init + [tokens[|tokens| - 1]];
      IndexToken(IndexAll(ix, init, cur), tokens[|tokens| - 1], cur)
  }

  /** Indexing one more token of a run. */
  lemma IndexAllStep(ix: Index, tokens: seq<string>, i: nat, cur: Posting)
    requires SlotsInRange(ix) && i < |tokens|
    ensures IndexAll(ix, tokens[..i + 1], cur) == IndexToken(IndexAll(ix, tokens[..i], cur), tokens[i], cur)
  {
    assert tokens[..i + 1][..i] == tokens[..i];
  }

  /** Where a left-to-right walk over `content` meets the end of `CleanPrefix`:
      a token before it is accepted, the token at it is rejected. */
  lemma CleanPrefixAt(lex: Lexicon, content: seq<string>, i: nat)
    requires i < |content| && i <= |CleanPrefix(lex, content)|
    ensures Accepts(lex, content[i]) <==> i < |CleanPrefix(lex, content)|
    ensures CleanPrefix(lex, content)[..i] == content[..i]
  {
    var p := CleanPrefix(lex, content);
    if i < |p| {
      assert p[i] == content[i];
    }
  }

  /** `__index_tokens(content)` with `cur` as the current tweet id: it stops at
      the first token `__clean` rejects. */
  function IndexTokens(lex: Lexicon, ix: Index, content: seq<string>, cur: Posting): Index
    requires SlotsInRange(ix)
  {
    IndexAll(ix, CleanPrefix(lex, content), cur)
  }

  // ---------------------------------------------------------------------------
  // What one token does
  // ---------------------------------------------------------------------------

  /** Appending to the list of `token` changes that list and its `freq`, and
      no other node or list. */
  lemma AppendFrame(ix: Index, token: string, cur: Posting)
    requires Valid(ix) && token in ix.nodes
    ensures var r := Append(ix, token, cur);
      && r.nodes.Keys == ix.nodes.Keys
      && (forall u :: u in ix.nodes ==> r.nodes[u].slot == ix.nodes[u].slot)
      && (forall u :: u in ix.nodes && u != token ==> r.nodes[u] == ix.nodes[u] && PostingsOf(r, u) == PostingsOf(ix, u))
      && r.nodes[token].freq == ix.nodes[token].freq + 1
      && PostingsOf(r, token) == PostingsOf(ix, token) + [cur]
  {
    var r := Append(ix, token, cur);
    forall u | u in ix.nodes && u != token
      ensures PostingsOf(r, u) == PostingsOf(ix, u)
    {
      assert ix.nodes[u].slot != ix.nodes[token].slot;
    }
  }

  /** Appending an id the list lacks keeps the invariant. */
  lemma AppendValid(ix: Index, token: string, cur: Posting)
    requires Valid(ix) && token in ix.nodes && cur !in PostingsOf(ix, token)
    ensures Valid(Append(ix, token, cur))
  {
    AppendFrame(ix, token, cur);
    NoDupAppend(PostingsOf(ix, token), cur);
  }

  /** Indexing a token keeps the invariant. */
  lemma IndexTokenValid(ix: Index, token: string, cur: Posting)
    requires Valid(ix)
    ensures Valid(IndexToken(ix, token, cur))
  {
    LookupEffect(ix, token, cur);
    var ix1 := Lookup(ix, token, cur);
    if cur !in PostingsOf(ix1, token) {
      AppendValid(ix1, token, cur);
    }
  }

  /** Indexing a token lists `cur` under it and only lengthens lists: every
      list keeps what it held as a prefix and its node keeps its slot. */
  lemma IndexTokenGrows(ix: Index, token: string, cur: Posting)
    requires SlotsInRange(ix)
    ensures var r := IndexToken(ix, token, cur);
      && cur in PostingsOf(r, token)
      && forall u :: u in ix.nodes ==> r.nodes[u].slot == ix.nodes[u].slot && PostingsOf(ix, u) <= PostingsOf(r, u)
  {
  }

  /** With the invariant, indexing a token touches no other token's list, and
      adds nothing but `cur`. */
  lemma IndexTokenFrame(ix: Index, token: string, cur: Posting)
    requires Valid(ix)
    ensures var r := IndexToken(ix, token, cur);
      && (forall u :: u in ix.nodes && u != token ==> PostingsOf(r, u) == PostingsOf(ix, u))
      && (forall x :: x in PostingsOf(r, token) ==> x == cur || (token in ix.nodes && x in PostingsOf(ix, token)))
  {
    LookupEffect(ix, token, cur);
    var ix1 := Lookup(ix, token, cur);
    if cur !in PostingsOf(ix1, token) {
      AppendFrame(ix1, token, cur);
    }
  }

  // ---------------------------------------------------------------------------
  // What a run of tokens does
  // ---------------------------------------------------------------------------

  lemma {:induction false} IndexAllValid(ix: Index, tokens: seq<string>, cur: Posting)
    requires Valid(ix)
    ensures Valid(IndexAll(ix, tokens, cur))
    decreases |tokens|
  {
    if tokens != [] {
      var init := tokens[..|tokens| - 1];
      IndexAllValid(ix, init, cur);
      IndexTokenValid(IndexAll(ix, init, cur), tokens[|tokens| - 1], cur);
    }
  }

  /** Every indexed token becomes a key listing `cur`; the keys are the old
      ones and the indexed tokens; lists only lengthen. */
  lemma {:induction false} IndexAllGrows(ix: Index, tokens: seq<string>, cur: Posting)
    requires SlotsInRange(ix)
    ensures var r := IndexAll(ix, tokens, cur);
      && (forall t :: t in tokens ==> cur in PostingsOf(r, t))
      && (forall u :: u in ix.nodes ==> PostingsOf(ix, u) <= PostingsOf(r, u))
    decreases |tokens|
  {
    if tokens != [] {
      var init := tokens[..|tokens| - 1];
      var last := tokens[|tokens| - 1];
      assert tokens == init + [last];
      IndexAllGrows(ix, init, cur);
      var mid := IndexAll(ix, init, cur);
      IndexTokenGrows(mid, last, cur);
    }
  }

  /** With the invariant, a run of tokens leaves the lists of all other tokens
      alone, and puts nothing but `cur` into the lists it touches. */
  lemma {:induction false} IndexAllFrame(ix: Index, tokens: seq<string>, cur: Posting)
    requires Valid(ix)
    ensures var r := IndexAll(ix, tokens, cur);
      && (forall u :: u in ix.nodes && u !in tokens ==> PostingsOf(r, u) == PostingsOf(ix, u))
      && (forall u, x :: u in r.nodes && x in PostingsOf(r, u) ==>
            x == cur || (u in ix.nodes && x in PostingsOf(ix, u)))
    decreases |tokens|
  {
    if tokens != [] {
      var init := tokens[..|tokens| - 1];
      var last := tokens[|tokens| - 1];
      assert tokens == init + [last];
      IndexAllFrame(ix, init, cur);
      IndexAllValid(ix, init, cur);
      IndexAllGrows(ix, init, cur);
      var mid := IndexAll(ix, init, cur);
      IndexTokenFrame(mid, last, cur);
    }
  }

  /** A run of tokens that are all keys already listing `cur` changes nothing. */
  lemma {:induction false} IndexAllNoop(ix: Index, tokens: seq<string>, cur: Posting)
    requires SlotsInRange(ix)
    requires forall t :: t in tokens ==> t in ix.nodes && cur in PostingsOf(ix, t)
    ensures IndexAll(ix, tokens, cur) == ix
    decreases |tokens|
  {
    if tokens != [] {
      var init := tokens[..|tokens| - 1];
      assert forall t :: t in init ==> t in tokens;
      IndexAllNoop(ix, init, cur);
    }
  }

  // ---------------------------------------------------------------------------
  // What __index_tokens does
  // ---------------------------------------------------------------------------

  /** After `__index_tokens(content)`: every token before the first rejected one
      is a key (the raw token, not its lowercase form) whose list holds `cur`;
      no other token gains or loses a key or has its list changed; and the
      invariant still holds. */
  lemma IndexTokensEffect(lex: Lexicon, ix: Index, content: seq<string>, cur: Posting)
    requires Valid(ix)
    ensures var r := IndexTokens(lex, ix, content, cur);
      && Valid(r)
      && (forall t :: t in CleanPrefix(lex, content) ==> t in r.nodes && cur in PostingsOf(r, t))
      && (forall u :: u !in CleanPrefix(lex, content) ==>
            (u in r.nodes <==> u in ix.nodes) && (u in ix.nodes ==> PostingsOf(r, u) == PostingsOf(ix, u)))
  {
    var p := CleanPrefix(lex, content);
    IndexAllValid(ix, p, cur);
    IndexAllGrows(ix, p, cur);
    IndexAllFrame(ix, p, cur);
  }

  /** Indexing the same tweet again under the same id changes nothing, so the
      source's call of `__index_tokens` once per token equals a single call. */
  lemma IndexTokensIdempotent(lex: Lexicon, ix: Index, content: seq<string>, cur: Posting)
    requires SlotsInRange(ix)
    ensures IndexTokens(lex, IndexTokens(lex, ix, content, cur), content, cur) == IndexTokens(lex, ix, content, cur)
  {
    var p := CleanPrefix(lex, content);
    IndexAllGrows(ix, p, cur);
    IndexAllNoop(IndexAll(ix, p, cur), p, cur);
  }

  /** `__index_tokens(content)` called `k` times in a row, as lines 55-56 do
      with `k` the number of tokens. */
  function IndexTokensTimes(lex: Lexicon, ix: Index, content: seq<string>, cur: Posting, k: nat): (r: Index)
    requires SlotsInRange(ix)
    ensures SlotsInRange(r)
    decreases k
  {
    if k == 0 then ix else IndexTokens(lex, IndexTokensTimes(lex, ix, content, cur, k - 1), content, cur)
  }

  /** Calling `__index_tokens` again after the first call changes nothing. */
  lemma {:induction false} IndexTokensTimesOnce(lex: Lexicon, ix: Index, content: seq<string>, cur: Posting, k: nat)
    requires SlotsInRange(ix)
    ensures IndexTokensTimes(lex, ix, content, cur, k) == if k == 0 then ix else IndexTokens(lex, ix, content, cur)
    decreases k
  {
    if k > 0 {
      IndexTokensTimesOnce(lex, ix, content, cur, k - 1);
      IndexTokensIdempotent(lex, ix, content, cur);
    }
  }

  /** Calling `__index_tokens` once per token does what one call does; a tweet
      without tokens makes no call and needs none. */
  lemma IndexTokensPerToken(lex: Lexicon, ix: Index, content: seq<string>, cur: Posting)
    requires SlotsInRange(ix)
    ensures IndexTokensTimes(lex, ix, content, cur, |content|) == IndexTokens(lex, ix, content, cur)
  {
    IndexTokensTimesOnce(lex, ix, content, cur, |content|);
    if content == [] {
      assert CleanPrefix(lex, content) == [];
    }
  }

  // ---------------------------------------------------------------------------
  // The whole corpus
  // ---------------------------------------------------------------------------

  /** The index `__init__` builds from the tweets of a corpus, in order. */
  function Build(lex: Lexicon, corpus: seq<Tweet>): (r: Index)
    ensures SlotsInRange(r)
    decreases |corpus|
  {
    if corpus == [] then Empty
    else
      var last := corpus[|corpus| - 1];
      IndexTokens(lex, Build(lex, corpus[..|corpus| - 1]), last.content, Some(last.id))
  }

  /** Reading one more tweet of a corpus. */
  lemma BuildNext(lex: Lexicon, tweets: seq<Tweet>, i: nat)
    requires i < |tweets|
    ensures tweets[..i + 1] == tweets[..i] + [tweets[i]]
    ensures Build(lex, tweets[..i + 1]) == IndexTokens(lex, Build(lex, tweets[..i]), tweets[i].content, Some(tweets[i].id))
  {
    assert tweets[..i + 1][..i] == tweets[..i];
  }

  lemma {:induction false} BuildValid(lex: Lexicon, corpus: seq<Tweet>)
    ensures Valid(Build(lex, corpus))
    decreases |corpus|
  {
    if corpus != [] {
      var last := corpus[|corpus| - 1];
      BuildValid(lex, corpus[..|corpus| - 1]);
      IndexTokensEffect(lex, Build(lex, corpus[..|corpus| - 1]), last.content, Some(last.id));
    }
  }

  /** Tweet `tw` reaches token `t`: `t` comes before its first rejected token. */
  predicate Reaches(lex: Lexicon, tw: Tweet, t: string)
  {
    t in CleanPrefix(lex, tw.content)
  }

  /** After the build, the keys are exactly the tokens some tweet reaches. */
  lemma {:induction false} BuildKeys(lex: Lexicon, corpus: seq<Tweet>, t: string)
    ensures t in Build(lex, corpus).nodes <==> exists j :: 0 <= j < |corpus| && Reaches(lex, corpus[j], t)
    decreases |corpus|
  {
    if corpus != [] {
      var init, last := corpus[..|corpus| - 1], corpus[|corpus| - 1];
      BuildKeys(lex, init, t);
      BuildStep(lex, corpus);
      assert t in Build(lex, corpus).nodes <==> t in Build(lex, init).nodes || Reaches(lex, last, t);
      if t in Build(lex, init).nodes {
        var j :| 0 <= j < |init| && Reaches(lex, init[j], t);
        assert corpus[j] == init[j];
      } else if Reaches(lex, last, t) {
        assert corpus[|corpus| - 1] == last;
      } else {
        forall j | 0 <= j < |corpus|
          ensures !Reaches(lex, corpus[j], t)
        {
          if j < |init| {
            assert corpus[j] == init[j];
          }
        }
      }
    }
  }

  /** One step of the build: the index after the last tweet is the index
      after the others with the last tweet's accepted tokens added. */
  lemma BuildStep(lex: Lexicon, corpus: seq<Tweet>)
    requires corpus != []
    ensures var last := corpus[|corpus| - 1];
            Build(lex, corpus) ==
              IndexAll(Build(lex, corpus[..|corpus| - 1]), CleanPrefix(lex, last.content), Some(last.id))
  {
  }

  /** Soundness of the build: every id in the list of `t` is a tweet that reaches `t`. */
  lemma {:induction false} BuildPostingsSound(lex: Lexicon, corpus: seq<Tweet>, t: string, x: Posting)
    requires t in Build(lex, corpus).nodes
    requires x in PostingsOf(Build(lex, corpus), t)
    ensures exists j :: 0 <= j < |corpus| && Reaches(lex, corpus[j], t) && x == Some(corpus[j].id)
    decreases |corpus|
  {
    var n := |corpus| - 1;
    var init := corpus[..n];
    var cur := Some(corpus[n].id);
    var p := CleanPrefix(lex, corpus[n].content);
    var before := Build(lex, init);
    BuildValid(lex, init);
    BuildStep(lex, corpus);
    IndexAllFrame(before, p, cur);
    if t in before.nodes && x in PostingsOf(before, t) {
      BuildPostingsSound(lex, init, t, x);
      var j :| 0 <= j < |init| && Reaches(lex, init[j], t) && x == Some(init[j].id);
      assert corpus[j] == init[j];
    } else {
      assert Reaches(lex, corpus[n], t);
    }
  }

  /** Indexing more tokens keeps every id already listed under a key. */
  lemma IndexAllKeeps(ix: Index, tokens: seq<string>, cur: Posting, t: string, x: Posting)
    requires SlotsInRange(ix) && t in ix.nodes && x in PostingsOf(ix, t)
    ensures t in IndexAll(ix, tokens, cur).nodes
    ensures x in PostingsOf(IndexAll(ix, tokens, cur), t)
  {
    IndexAllGrows(ix, tokens, cur);
    var a, b := PostingsOf(ix, t), PostingsOf(IndexAll(ix, tokens, cur), t);
    var i :| 0 <= i < |a| && a[i] == x;
    assert b[i] == a[i];
  }

  /** The last tweet is listed under every token it reaches. */
  lemma BuildStepAdds(lex: Lexicon, corpus: seq<Tweet>, t: string)
    requires corpus != [] && Reaches(lex, corpus[|corpus| - 1], t)
    ensures t in Build(lex, corpus).nodes
    ensures Some(corpus[|corpus| - 1].id) in PostingsOf(Build(lex, corpus), t)
  {
    var n := |corpus| - 1;
    BuildStep(lex, corpus);
    IndexAllGrows(Build(lex, corpus[..n]), CleanPrefix(lex, corpus[n].content), Some(corpus[n].id));
  }

  /** Adding a tweet keeps every id already listed. */
  lemma BuildStepKeeps(lex: Lexicon, corpus: seq<Tweet>, t: string, x: Posting)
    requires corpus != []
    requires t in Build(lex, corpus[..|corpus| - 1]).nodes
    requires x in PostingsOf(Build(lex, corpus[..|corpus| - 1]), t)
    ensures t in Build(lex, corpus).nodes
    ensures x in PostingsOf(Build(lex, corpus), t)
  {
    var n := |corpus| - 1;
    BuildStep(lex, corpus);
    IndexAllKeeps(Build(lex, corpus[..n]), CleanPrefix(lex, corpus[n].content), Some(corpus[n].id), t, x);
  }

  /** Completeness of the build: every tweet that reaches `t` is in the list of `t`. */
  lemma {:induction false} BuildPostingsComplete(lex: Lexicon, corpus: seq<Tweet>, t: string, j: nat)
    requires j < |corpus| && Reaches(lex, corpus[j], t)
    ensures t in Build(lex, corpus).nodes
    ensures Some(corpus[j].id) in PostingsOf(Build(lex, corpus), t)
    decreases |corpus|
  {
    var n := |corpus| - 1;
    if j < n {
      var init := corpus[..n];
      assert init[j] == corpus[j];
      BuildPostingsComplete(lex, init, t, j);
      BuildStepKeeps(lex, corpus, t, Some(corpus[j].id));
    } else {
      assert corpus[j] == corpus[n];
      BuildStepAdds(lex, corpus, t);
    }
  }

  // ---------------------------------------------------------------------------
  // query
  // ---------------------------------------------------------------------------

  /** The ids `query(t1, t2)` answers: `set(query(t1)) & set(query(t2))`, each
      `query` being a `self[...]` that may insert its term. */
  function Intersection(ix: Index, t1: string, t2: string, cur: Posting): set<Posting>
    requires SlotsInRange(ix)
  {
    var ix1 := Lookup(ix, t1, cur);
    var ix2 := Lookup(ix1, t2, cur);
    (set x | x in PostingsOf(ix1, t1)) * (set x | x in PostingsOf(ix2, t2))
  }

  /** `query(t1, t2)` holds exactly the ids listed under both terms, an absent
      term counting as listing only the current tweet id. */
  lemma IntersectionMembers(ix: Index, t1: string, t2: string, cur: Posting)
    requires Valid(ix)
    ensures forall x :: x in Intersection(ix, t1, t2, cur) <==> x in Seeded(ix, t1, cur) && x in Seeded(ix, t2, cur)
  {
    LookupEffect(ix, t1, cur);
    var ix1 := Lookup(ix, t1, cur);
    LookupEffect(ix1, t2, cur);
    if t2 == t1 {
      assert Seeded(ix1, t2, cur) == Seeded(ix, t1, cur);
    } else {
      assert Seeded(ix1, t2, cur) == Seeded(ix, t2, cur);
    }
  }

  /** A list holding exactly the ids listed under both terms holds the ids of
      `Intersection`. */
  lemma IntersectionOfSeeded(ix: Index, t1: string, t2: string, cur: Posting, r: seq<Posting>)
    requires Valid(ix)
    requires forall x :: x in r <==> x in Seeded(ix, t1, cur) && x in Seeded(ix, t2, cur)
    ensures (set x | x in r) == Intersection(ix, t1, t2, cur)
  {
    IntersectionMembers(ix, t1, t2, cur);
  }

  /** `query(t1, t2)` and `query(t2, t1)` hold the same ids. */
  lemma IntersectionCommutes(ix: Index, t1: string, t2: string, cur: Posting)
    requires Valid(ix)
    ensures Intersection(ix, t1, t2, cur) == Intersection(ix, t2, t1, cur)
  {
    IntersectionMembers(ix, t1, t2, cur);
    IntersectionMembers(ix, t2, t1, cur);
  }

  // ---------------------------------------------------------------------------
  // tweet_content_dict
  // ---------------------------------------------------------------------------

  /** `tweet_content_dict` after reading a corpus: a later tweet with the same
      id replaces an earlier one. */
  function ContentOf(corpus: seq<Tweet>): map<TweetId, seq<string>>
    decreases |corpus|
  {
    if corpus == [] then map[]
    else
      var last := corpus[|corpus| - 1];
      ContentOf(corpus[..|corpus| - 1])[last.id := last.content]
  }

  /** An id is a key exactly when some tweet has it, and maps to the content of
      the last tweet that has it. */
  lemma {:induction false} ContentOfLastTweet(corpus: seq<Tweet>, j: nat)
    requires j < |corpus|
    requires forall k :: j < k < |corpus| ==> corpus[k].id != corpus[j].id
    ensures corpus[j].id in ContentOf(corpus) && ContentOf(corpus)[corpus[j].id] == corpus[j].content
    decreases |corpus|
  {
    if j < |corpus| - 1 {
      var init := corpus[..|corpus| - 1];
      assert init[j] == corpus[j];
      ContentOfLastTweet(init, j);
    }
  }

  /** Only ids of tweets in the corpus are keys. */
  lemma {:induction false} ContentOfKeys(corpus: seq<Tweet>, id: TweetId)
    ensures id in ContentOf(corpus) <==> exists j :: 0 <= j < |corpus| && corpus[j].id == id
    decreases |corpus|
  {
    if corpus != [] {
      var init := corpus[..|corpus| - 1];
      ContentOfKeys(init, id);
      if exists j :: 0 <= j < |init| && init[j].id == id {
        var j :| 0 <= j < |init| && init[j].id == id;
        assert corpus[j].id == id;
      }
      if exists j :: 0 <= j < |corpus| && corpus[j].id == id {
        var j :| 0 <= j < |corpus| && corpus[j].id == id;
        if j < |init| {
          assert init[j].id == id;
        }
      }
    }
  }

  /** `__current_tweet_id` after reading a corpus. */
  function CurrentAfter(corpus: seq<Tweet>): Posting
  {
    if corpus == [] then None else Some(corpus[|corpus| - 1].id)
  }

  /** Reading one more tweet. */
  lemma ContentOfNext(corpus: seq<Tweet>, tweet: Tweet)
    ensures ContentOf(corpus + [tweet]) == ContentOf(corpus)[tweet.id := tweet.content]
    ensures CurrentAfter(corpus + [tweet]) == Some(tweet.id)
  {
    assert (corpus + [tweet])[..|corpus|] == corpus;
  }

  // ---------------------------------------------------------------------------
  // PostingNode ordering
  // ---------------------------------------------------------------------------

  /** `PostingNode.__gt__`: compares frequencies only. */
  predicate Gt(a: PostingNode, b: PostingNode)
  {
    a.freq > b.freq
  }

  /** `PostingNode.__ne__` as written: true when the frequencies are EQUAL. */
  predicate NeAsWritten(a: PostingNode, b: PostingNode)
  {
    a.freq == b.freq
  }

  /** As written, every node is "not equal" to itself. */
  lemma NeAsWrittenHoldsForSameNode(a: PostingNode)
    ensures NeAsWritten(a, a)
  {
  }

  /** `__ne__` as evidently intended: the frequencies differ. */
  predicate Ne(a: PostingNode, b: PostingNode)
  {
    a.freq != b.freq
  }

  /** The intended `__ne__` agrees with `__gt__`: two nodes differ exactly when
      one is greater, and no node differs from itself. */
  lemma NeAgreesWithGt(a: PostingNode, b: PostingNode)
    ensures Ne(a, b) <==> Gt(a, b) || Gt(b, a)
    ensures !Ne(a, a)
  {
  }
}
