/**
 * `TwitterIQ` (src/indexer.py) as a class whose methods change its fields in
 * place, each proved against the functions of `IndexerSpec`.
 *
 * The dict part of the object is `nodes`; `allPostings`, `tweetContent` and
 * `currentTweetId` are `all_postings`, `tweet_content_dict` and
 * `__current_tweet_id`. The ghost `corpus` is the sequence of tweets read so
 * far, against which `tweetContent` is specified.
 */
module Indexer {
  import opened Wrappers
  import opened Seqs
  import Spec = IndexerSpec

  class TwitterIQ {
    const lexicon: Spec.Lexicon
    var nodes: map<string, Spec.PostingNode>
    var allPostings: seq<seq<Spec.Posting>>
    var tweetContent: map<Spec.TweetId, seq<string>>
    var currentTweetId: Spec.Posting
    ghost var corpus: seq<Spec.Tweet>

    /** The dict and `all_postings` as one value. */
    function Snapshot(): Spec.Index
      reads this
    {
      Spec.Index(nodes, allPostings)
    }

    ghost predicate Valid()
      reads this
    {
      && Spec.Valid(Snapshot())
      && tweetContent == Spec.ContentOf(corpus)
      && currentTweetId == Spec.CurrentAfter(corpus)
    }

    /** `__init__` on the tweets of a corpus, in order. */
    constructor(lexicon: Spec.Lexicon, tweets: seq<Spec.Tweet>)
      ensures Valid()
      ensures this.lexicon == lexicon && corpus == tweets
      ensures Snapshot() == Spec.Build(lexicon, tweets)
    {
      this.lexicon := lexicon;
      nodes := map[];
      allPostings := [];
      tweetContent := map[];
      currentTweetId := None;
      corpus := [];
      new;
      Spec.BuildValid(lexicon, []);
      for i := 0 to |tweets|
        invariant Valid()
        invariant corpus == tweets[..i]
        invariant Snapshot() == Spec.Build(lexicon, tweets[..i])
      {
        Spec.BuildNext(lexicon, tweets, i);
        ReadTweet(tweets[i]);
      }
      assert tweets[..|tweets|] == tweets;
    }

    /** Lines 52-56: record the content, make the tweet current, and call
        `__index_tokens` once per token of the content. */
    method ReadTweet(tweet: Spec.Tweet)
      requires Valid()
      modifies this
      ensures Valid()
      ensures corpus == old(corpus) + [tweet]
      ensures Snapshot() == Spec.IndexTokens(lexicon, old(Snapshot()), tweet.content, Some(tweet.id))
    {
      Spec.ContentOfNext(corpus, tweet);
      tweetContent := tweetContent[tweet.id := tweet.content];
      currentTweetId := Some(tweet.id);
      corpus := corpus + [tweet];
      IndexContent(tweet.content);
    }

    /** Lines 55-56: `__index_tokens(content)` once per token of `content`;
        every call after the first leaves the index as it found it. */
    method IndexContent(content: seq<string>)
      requires Spec.Valid(Snapshot())
      modifies this`nodes, this`allPostings
      ensures Spec.Valid(Snapshot())
      ensures Snapshot() == Spec.IndexTokens(lexicon, old(Snapshot()), content, currentTweetId)
    {
      ghost var before, cur := Snapshot(), currentTweetId;
      ghost var after := Spec.IndexTokens(lexicon, before, content, cur);
      Spec.IndexTokensPerToken(lexicon, before, content, cur);
      Spec.IndexTokensIdempotent(lexicon, before, content, cur);
      for k := 0 to |content|
        invariant Spec.Valid(Snapshot()) && currentTweetId == cur
        invariant Snapshot() == if k == 0 then before else after
      {
        IndexTokens(content);
      }
    }

    /** `__missing__(token)`: a new list holding the current tweet id at the
        end of `all_postings`, and a node with `freq` 1 over it under `token`. */
    method Missing(token: string) returns (node: Spec.PostingNode)
      requires Spec.SlotsInRange(Snapshot())
      modifies this`nodes, this`allPostings
      ensures Snapshot() == Spec.Missing(old(Snapshot()), token, currentTweetId)
      ensures token in nodes && node == nodes[token]
      ensures allPostings[node.slot] == [currentTweetId] && node.freq == 1
    {
      allPostings := allPostings + [[currentTweetId]];
      nodes := nodes[token := Spec.PostingNode(|allPostings| - 1, 1)];
      node := nodes[token];
    }

    /** `self[token]`: the node under `token`, made by `__missing__` if absent. */
    method Get(token: string) returns (node: Spec.PostingNode)
      requires Spec.SlotsInRange(Snapshot())
      modifies this`nodes, this`allPostings
      ensures Snapshot() == Spec.Lookup(old(Snapshot()), token, currentTweetId)
      ensures token in nodes && node == nodes[token]
      ensures allPostings[node.slot] == Spec.Seeded(old(Snapshot()), token, currentTweetId)
    {
      if token in nodes {
        node := nodes[token];
      } else {
        node := Missing(token);
      }
    }

    /** Lines 87-91, the loop body of `__index_tokens` for an accepted token:
        `self[token]`, then append `tweetId` to its list and bump its `freq`
        unless the list already holds it. */
    method IndexToken(token: string, tweetId: Spec.Posting)
      requires Spec.SlotsInRange(Snapshot()) && tweetId == currentTweetId
      modifies this`nodes, this`allPostings
      ensures Snapshot() == Spec.IndexToken(old(Snapshot()), token, tweetId)
    {
      var node := Get(token);
      assert Snapshot() == Spec.Lookup(old(Snapshot()), token, tweetId);
      if tweetId !in allPostings[node.slot] {
        allPostings := allPostings[node.slot := allPostings[node.slot] + [tweetId]];
        nodes := nodes[token := Spec.PostingNode(node.slot, node.freq + 1)];
      }
    }

    /** `__index_tokens(content)`: for each token up to the first one `__clean`
        rejects, list the current tweet id under it unless already listed. */
    method IndexTokens(content: seq<string>)
      requires Spec.Valid(Snapshot())
      modifies this`nodes, this`allPostings
      ensures Spec.Valid(Snapshot())
      ensures Snapshot() == Spec.IndexTokens(lexicon, old(Snapshot()), content, currentTweetId)
    {
      ghost var before := Snapshot();
      ghost var p := Spec.CleanPrefix(lexicon, content);
      Spec.IndexAllValid(before, p, currentTweetId);
      var tweetId := currentTweetId;
      var i := 0;
      while i < |content|
        invariant i <= |p|
        invariant Snapshot() == Spec.IndexAll(before, content[..i], tweetId)
      {
        var token := content[i];
        Spec.CleanPrefixAt(lexicon, content, i);
        if !Spec.Accepts(lexicon, token) {
          assert p == content[..i];
          return;
        }
        Spec.IndexAllStep(before, content, i, tweetId);
        IndexToken(token, tweetId);
        i := i + 1;
      }
      assert p == content[..i];
    }

    /** `query(term1)`: the list under `term1` (inserting it, listing the
        current tweet id, if absent); `query(term1, term2)`: the ids listed
        under both, once each, in no particular order. */
    method Query(term1: string, term2: Option<string>) returns (r: seq<Spec.Posting>)
      requires Spec.Valid(Snapshot())
      modifies this`nodes, this`allPostings
      ensures Spec.Valid(Snapshot())
      ensures term2.None? ==> Snapshot() == Spec.Lookup(old(Snapshot()), term1, currentTweetId)
      ensures term2.None? ==> r == Spec.Seeded(old(Snapshot()), term1, currentTweetId)
      ensures term2.Some? ==>
                Snapshot() == Spec.Lookup(Spec.Lookup(old(Snapshot()), term1, currentTweetId), term2.value, currentTweetId)
      ensures term2.Some? ==> NoDup(r)
      ensures term2.Some? ==>
                forall x :: x in r <==> x in Spec.Seeded(old(Snapshot()), term1, currentTweetId) &&
                                        x in Spec.Seeded(old(Snapshot()), term2.value, currentTweetId)
      ensures term2.Some? ==> (set x | x in r) == Spec.Intersection(old(Snapshot()), term1, term2.value, currentTweetId)
      decreases if term2.None? then 0 else 1
    {
      if term2.None? {
        Spec.LookupEffect(Snapshot(), term1, currentTweetId);
        var node := Get(term1);
        r := allPostings[node.slot];
      } else {
        ghost var before, cur := Snapshot(), currentTweetId;
        ghost var s1, s2 := Spec.Seeded(before, term1, cur), Spec.Seeded(before, term2.value, cur);
        Spec.SeededAfterLookup(before, term1, term2.value, cur);
        var a := Query(term1, None);
        assert a == s1;
        var b := Query(term2.value, None);
        assert b == s2;
        r := ListOfSet((set x | x in a) * (set x | x in b));
        ListOfIntersection(a, b, r);
        Spec.IntersectionOfSeeded(before, term1, term2.value, cur, r);
      }
    }

    /** `get_tokens_from_tweet(id)`: the content of the last tweet read with
        that id; `None` (a `KeyError`) when no tweet had it. */
    method GetTokensFromTweet(id: Spec.TweetId) returns (r: Option<seq<string>>)
      requires Valid()
      ensures r.Some? <==> exists j :: 0 <= j < |corpus| && corpus[j].id == id
      ensures forall j ::
                (0 <= j < |corpus| && corpus[j].id == id && forall k :: j < k < |corpus| ==> corpus[k].id != id) ==>
                r == Some(corpus[j].content)
    {
      Spec.ContentOfKeys(corpus, id);
      forall j | 0 <= j < |corpus| && corpus[j].id == id && (forall k :: j < k < |corpus| ==> corpus[k].id != id)
        ensures id in tweetContent && tweetContent[id] == corpus[j].content
      {
        Spec.ContentOfLastTweet(corpus, j);
      }
      if id in tweetContent {
        r := Some(tweetContent[id]);
      } else {
        r := None;
      }
    }

    /** A key of greatest `freq` among `keys`. */
    method PickMostFrequent(keys: set<string>) returns (k: string)
      requires keys != {} && forall t :: t in keys ==> t in nodes
      ensures k in keys
      ensures forall t :: t in keys ==> !Spec.Gt(nodes[t], nodes[k])
    {
      k := Choose(keys);
      var rest := keys - {k};
      while rest != {}
        invariant k in keys && rest <= keys
        invariant forall t :: t in keys && t !in rest ==> !Spec.Gt(nodes[t], nodes[k])
        decreases |rest|
      {
        var t := Choose(rest);
        if Spec.Gt(nodes[t], nodes[k]) {
          k := t;
        }
        rest := rest - {t};
      }
    }

    /** `get_most_freq_words(limit)`: `heapq.nlargest` over the keys by their
        nodes: no words for a limit of 0 or less, otherwise `limit` words or all
        of them if fewer, each once, from most to least frequent, and none left
        out more frequent than one chosen. */
    method GetMostFreqWords(limit: int) returns (r: seq<string>)
      ensures |r| == if limit <= 0 then 0 else if limit < |nodes| then limit else |nodes|
      ensures NoDup(r) && forall i :: 0 <= i < |r| ==> r[i] in nodes
      ensures forall i, j :: 0 <= i < j < |r| ==> !Spec.Gt(nodes[r[j]], nodes[r[i]])
      ensures forall t, i :: t in nodes && t !in r && 0 <= i < |r| ==> !Spec.Gt(nodes[t], nodes[r[i]])
    {
      r := [];
      var rest := nodes.Keys;
      while |r| < limit && rest != {}
        invariant forall t :: t in rest <==> t in nodes && t !in r
        invariant |rest| + |r| == |nodes|
        invariant |r| <= if limit <= 0 then 0 else limit
        invariant NoDup(r) && forall i :: 0 <= i < |r| ==> r[i] in nodes
        invariant forall i, j :: 0 <= i < j < |r| ==> !Spec.Gt(nodes[r[j]], nodes[r[i]])
        invariant forall t, i :: t in rest && 0 <= i < |r| ==> !Spec.Gt(nodes[t], nodes[r[i]])
        decreases |rest|
      {
        var k := PickMostFrequent(rest);
        NoDupAppend(r, k);
        r := r + [k];
        rest := rest - {k};
      }
    }
  }
}
