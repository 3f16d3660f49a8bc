/**
 * The plain-dict index builder `index` (src/index.py): the build loop of
 * `TwitterIQ` without cleaning, over records already read from the file.
 *
 * `post_dict[token]` is the three-element list `[token, count, postings]`;
 * its postings list is also an element of `all_postings`. As in the
 * `TwitterIQ` model, an entry records the SLOT of its list in `allPostings`.
 */
module PlainIndex {
  import opened Seqs

  /** A line of the file: `int(tweet[3])` and `tweet[5:]`. */
  datatype Record = Record(id: int, tokens: seq<string>)

  /** `[token, count, postings]`, its postings being `allPostings[slot]`. */
  datatype Entry = Entry(token: string, count: int, slot: nat)

  /** `post_dict` and `all_postings`. */
  datatype State = State(postDict: map<string, Entry>, allPostings: seq<seq<int>>)

  const Empty := State(map[], [])

  ghost predicate SlotsInRange(s: State)
  {
    forall t :: t in s.postDict ==> s.postDict[t].slot < |s.allPostings|
  }

  /** `post_dict[t][2]` for a key `t`. */
  function PostingsOf(s: State, t: string): seq<int>
    requires SlotsInRange(s) && t in s.postDict
  {
    s.allPostings[s.postDict[t].slot]
  }

  /** What the loop keeps: one list per key and one key per list, each entry
      naming its own key, a count equal to the length of its list, and no list
      empty or holding an id twice. */
  ghost predicate Valid(s: State)
  {
    && SlotsInRange(s)
    && |s.postDict| == |s.allPostings|
    && (forall t, u :: t in s.postDict && u in s.postDict && s.postDict[t].slot == s.postDict[u].slot ==> t == u)
    && (forall t :: t in s.postDict ==> s.postDict[t].token == t && s.postDict[t].count == |PostingsOf(s, t)|)
    && (forall t :: t in s.postDict ==> PostingsOf(s, t) != [] && NoDup(PostingsOf(s, t)))
  }

  // ---------------------------------------------------------------------------
  // The loop as functions
  // ---------------------------------------------------------------------------

  /** Lines 13-20 for one token of the record with id `id`. */
  function AddToken(s: State, token: string, id: int): (r: State)
    requires SlotsInRange(s)
    ensures SlotsInRange(r)
    ensures forall t :: t in r.postDict <==> t in s.postDict || t == token
  {
    if token in s.postDict then
      var current := s.postDict[token];
      if id !in s.allPostings[current.slot] then
        State(s.postDict[token := current.(count := current.count + 1)],
              s.allPostings[current.slot := s.allPostings[current.slot] + [id]])
      else s
    else
      State(s.postDict[token := Entry(token, 1, |s.allPostings|)], s.allPostings + [[id]])
  }

  /** Lines 12-20: every token of one record, in order. */
  function AddTokens(s: State, tokens: seq<string>, id: int): (r: State)
    requires SlotsInRange(s)
    ensures SlotsInRange(r)
    ensures forall t :: t in r.postDict <==> t in s.postDict || t in tokens
    decreases |tokens|
  {
    if tokens == [] then s
    else
      var init := tokens[..|tokens| - 1];
      assert tokens == init + [tokens[|tokens| - 1]];
      AddToken(AddTokens(s, init, id), tokens[|tokens| - 1], id)
  }

  /** What `index` returns for a sequence of records. */
  function AddRecords(records: seq<Record>): (r: State)
    ensures SlotsInRange(r)
    decreases |records|
  {
    if records == [] then Empty
    else
      var last := records[|records| - 1];
      AddTokens(AddRecords(records[..|records| - 1]), last.tokens, last.id)
  }

  lemma AddTokensStep(s: State, tokens: seq<string>, k: nat, id: int)
    requires SlotsInRange(s) && k < |tokens|
    ensures AddTokens(s, tokens[..k + 1], id) == AddToken(AddTokens(s, tokens[..k], id), tokens[k], id)
  {
    assert tokens[..k + 1][..k] == tokens[..k];
  }

  lemma AddRecordsStep(records: seq<Record>, j: nat)
    requires j < |records|
    ensures AddRecords(records[..j + 1]) == AddTokens(AddRecords(records[..j]), records[j].tokens, records[j].id)
  {
    assert records[..j + 1][..j] == records[..j];
  }

  // ---------------------------------------------------------------------------
  // The loop itself
  // ---------------------------------------------------------------------------

  /** `index` over records already read from the file: afterwards every token of
      every record is a key listing that record's id, there are no other keys,
      a list holds only ids of records that have its key, in the order the
      records come, each entry names its key and counts its list, and no list
      holds an id twice. */
  method Index(records: seq<Record>) returns (postDict: map<string, Entry>, allPostings: seq<seq<int>>)
    ensures State(postDict, allPostings) == AddRecords(records)
    ensures Valid(State(postDict, allPostings))
    ensures forall t :: t in postDict <==> exists j :: 0 <= j < |records| && t in records[j].tokens
    ensures forall j, t :: 0 <= j < |records| && t in records[j].tokens ==>
              t in postDict && records[j].id in allPostings[postDict[t].slot]
    ensures forall t, x :: t in postDict && x in allPostings[postDict[t].slot] ==>
              exists j :: 0 <= j < |records| && t in records[j].tokens && records[j].id == x
    ensures forall t :: t in postDict ==> allPostings[postDict[t].slot] == IdsWith(records, t)
  {
    postDict := map[];
    allPostings := [];
    for j := 0 to |records|
      invariant State(postDict, allPostings) == AddRecords(records[..j])
    {
      AddRecordsStep(records, j);
      postDict, allPostings := IndexRecord(postDict, allPostings, records[j].id, records[j].tokens);
    }
    assert records[..|records|] == records;
    AddRecordsIndexes(records);
    forall t | t in postDict
      ensures allPostings[postDict[t].slot] == IdsWith(records, t)
    {
      AddRecordsListOrder(records, t);
    }
  }

  /** Lines 12-20, the inner loop over the tokens of one record. */
  method IndexRecord(postDict0: map<string, Entry>, allPostings0: seq<seq<int>>, tweetId: int, content: seq<string>)
    returns (postDict: map<string, Entry>, allPostings: seq<seq<int>>)
    requires SlotsInRange(State(postDict0, allPostings0))
    ensures State(postDict, allPostings) == AddTokens(State(postDict0, allPostings0), content, tweetId)
  {
    postDict, allPostings := postDict0, allPostings0;
    ghost var before := State(postDict, allPostings);
    for k := 0 to |content|
      invariant State(postDict, allPostings) == AddTokens(before, content[..k], tweetId)
    {
      AddTokensStep(before, content, k, tweetId);
      postDict, allPostings := IndexToken(postDict, allPostings, tweetId, content[k]);
    }
    assert content[..|content|] == content;
  }

  /** Lines 13-20, one token: a new key gets a new list holding the id; a key
      whose list lacks the id gets it appended and its count raised. */
  method IndexToken(postDict0: map<string, Entry>, allPostings0: seq<seq<int>>, tweetId: int, token: string)
    returns (postDict: map<string, Entry>, allPostings: seq<seq<int>>)
    requires SlotsInRange(State(postDict0, allPostings0))
    ensures State(postDict, allPostings) == AddToken(State(postDict0, allPostings0), token, tweetId)
  {
    postDict, allPostings := postDict0, allPostings0;
    if token in postDict {
      var current := postDict[token];
      if tweetId !in allPostings[current.slot] {
        allPostings := allPostings[current.slot := allPostings[current.slot] + [tweetId]];
        postDict := postDict[token := current.(count := current.count + 1)];
      }
    } else {
      allPostings := allPostings + [[tweetId]];
      postDict := postDict[token := Entry(token, 1, |allPostings| - 1)];
    }
  }

  // ---------------------------------------------------------------------------
  // The invariant
  // ---------------------------------------------------------------------------

  /** Appending an id the list of a key lacks keeps the invariant. */
  lemma AppendValid(s: State, token: string, id: int)
    requires Valid(s) && token in s.postDict && id !in PostingsOf(s, token)
    ensures Valid(AddToken(s, token, id))
  {
    AppendFrame(s, token, id);
    NoDupAppend(PostingsOf(s, token), id);
  }

  /** Appending to the list of `token` changes that list and its count, and
      no other entry or list. */
  lemma AppendFrame(s: State, token: string, id: int)
    requires Valid(s) && token in s.postDict && id !in PostingsOf(s, token)
    ensures var r := AddToken(s, token, id);
      && r.postDict.Keys == s.postDict.Keys
      && (forall u :: u in s.postDict ==> r.postDict[u].slot == s.postDict[u].slot && r.postDict[u].token == s.postDict[u].token)
      && (forall u :: u in s.postDict && u != token ==> r.postDict[u] == s.postDict[u] && PostingsOf(r, u) == PostingsOf(s, u))
      && r.postDict[token].count == s.postDict[token].count + 1
      && PostingsOf(r, token) == PostingsOf(s, token) + [id]
  {
    var r := AddToken(s, token, id);
    forall u | u in s.postDict && u != token
      ensures PostingsOf(r, u) == PostingsOf(s, u)
    {
      assert s.postDict[u].slot != s.postDict[token].slot;
    }
  }

  /** A new key with its one-element list keeps the invariant. */
  lemma NewKeyValid(s: State, token: string, id: int)
    requires Valid(s) && token !in s.postDict
    ensures Valid(AddToken(s, token, id))
  {
    var r := AddToken(s, token, id);
    var n := |s.allPostings|;
    assert r.postDict == s.postDict[token := Entry(token, 1, n)] && r.allPostings == s.allPostings + [[id]];
    forall u | u in s.postDict
      ensures r.postDict[u] == s.postDict[u] && s.postDict[u].slot < n && PostingsOf(r, u) == PostingsOf(s, u)
    {
    }
    assert PostingsOf(r, token) == [id];
  }

  lemma AddTokenValid(s: State, token: string, id: int)
    requires Valid(s)
    ensures Valid(AddToken(s, token, id))
  {
    if token !in s.postDict {
      NewKeyValid(s, token, id);
    } else if id !in PostingsOf(s, token) {
      AppendValid(s, token, id);
    }
  }

  lemma {:induction false} AddTokensValid(s: State, tokens: seq<string>, id: int)
    requires Valid(s)
    ensures Valid(AddTokens(s, tokens, id))
    decreases |tokens|
  {
    if tokens != [] {
      var init := tokens[..|tokens| - 1];
      AddTokensValid(s, init, id);
      AddTokenValid(AddTokens(s, init, id), tokens[|tokens| - 1], id);
    }
  }

  /** Every entry names its own key, counts its list, and no list repeats an id. */
  lemma {:induction false} AddRecordsValid(records: seq<Record>)
    ensures Valid(AddRecords(records))
    decreases |records|
  {
    if records != [] {
      var init := records[..|records| - 1];
      AddRecordsValid(init);
      AddTokensValid(AddRecords(init), records[|records| - 1].tokens, records[|records| - 1].id);
    }
  }

  // ---------------------------------------------------------------------------
  // Keys and postings
  // ---------------------------------------------------------------------------

  /** The keys are exactly the tokens of the records. */
  lemma {:induction false} AddRecordsKeys(records: seq<Record>, t: string)
    ensures t in AddRecords(records).postDict <==> exists j :: 0 <= j < |records| && t in records[j].tokens
    decreases |records|
  {
    if records != [] {
      var init := records[..|records| - 1];
      AddRecordsKeys(init, t);
      if exists j :: 0 <= j < |records| && t in records[j].tokens {
        var j :| 0 <= j < |records| && t in records[j].tokens;
        if j < |init| {
          assert init[j] == records[j];
        }
      }
      if exists j :: 0 <= j < |init| && t in init[j].tokens {
        var j :| 0 <= j < |init| && t in init[j].tokens;
        assert records[j] == init[j];
      }
    }
  }

  /** Indexing a token lists `id` under it and only lengthens lists. */
  lemma AddTokenGrows(s: State, token: string, id: int)
    requires SlotsInRange(s)
    ensures var r := AddToken(s, token, id);
      && id in PostingsOf(r, token)
      && forall u :: u in s.postDict ==> r.postDict[u].slot == s.postDict[u].slot && PostingsOf(s, u) <= PostingsOf(r, u)
  {
  }

  lemma {:induction false} AddTokensGrows(s: State, tokens: seq<string>, id: int)
    requires SlotsInRange(s)
    ensures var r := AddTokens(s, tokens, id);
      && (forall t :: t in tokens ==> id in PostingsOf(r, t))
      && (forall u :: u in s.postDict ==> r.postDict[u].slot == s.postDict[u].slot && PostingsOf(s, u) <= PostingsOf(r, u))
    decreases |tokens|
  {
    if tokens != [] {
      var init := tokens[..|tokens| - 1];
      var last := tokens[|tokens| - 1];
      assert tokens == init + [last];
      AddTokensGrows(s, init, id);
      AddTokenGrows(AddTokens(s, init, id), last, id);
    }
  }

  /** A list keeps every id it held while later tokens are indexed. */
  lemma AddTokensKeeps(s: State, tokens: seq<string>, id: int, t: string, x: int)
    requires SlotsInRange(s) && t in s.postDict && x in PostingsOf(s, t)
    ensures t in AddTokens(s, tokens, id).postDict && x in PostingsOf(AddTokens(s, tokens, id), t)
  {
    AddTokensGrows(s, tokens, id);
    var a, b := PostingsOf(s, t), PostingsOf(AddTokens(s, tokens, id), t);
    var i :| 0 <= i < |a| && a[i] == x;
    assert b[i] == a[i];
  }

  /** Every token of every record is a key whose list holds the record's id. */
  lemma {:induction false} AddRecordsComplete(records: seq<Record>, j: nat, t: string)
    requires j < |records| && t in records[j].tokens
    ensures t in AddRecords(records).postDict
    ensures records[j].id in PostingsOf(AddRecords(records), t)
    decreases |records|
  {
    var n := |records| - 1;
    var init := records[..n];
    AddRecordsStep(records, n);
    assert records[..n + 1] == records;
    if j < n {
      assert init[j] == records[j];
      AddRecordsComplete(init, j, t);
      AddTokensKeeps(AddRecords(init), records[n].tokens, records[n].id, t, records[j].id);
    } else {
      assert records[j] == records[n];
      AddTokensGrows(AddRecords(init), records[n].tokens, records[n].id);
    }
  }

  /** One token puts no id into any list but `id`, and only under `token`. */
  lemma AddTokenSound(s: State, token: string, id: int)
    requires Valid(s)
    ensures var r := AddToken(s, token, id);
      forall u, x :: u in r.postDict && x in PostingsOf(r, u) ==>
        (u == token && x == id) || (u in s.postDict && x in PostingsOf(s, u))
  {
    var r := AddToken(s, token, id);
    if token !in s.postDict {
      forall u | u in s.postDict
        ensures PostingsOf(r, u) == PostingsOf(s, u)
      {
      }
    } else if id !in PostingsOf(s, token) {
      AppendFrame(s, token, id);
    }
  }

  /** A record puts no id into any list but its own, and only under its tokens. */
  lemma {:induction false} AddTokensSound(s: State, tokens: seq<string>, id: int, u: string, x: int)
    requires Valid(s)
    requires u in AddTokens(s, tokens, id).postDict && x in PostingsOf(AddTokens(s, tokens, id), u)
    ensures (u in tokens && x == id) || (u in s.postDict && x in PostingsOf(s, u))
    decreases |tokens|
  {
    if tokens != [] {
      var init, last := tokens[..|tokens| - 1], tokens[|tokens| - 1];
      var mid := AddTokens(s, init, id);
      AddTokensValid(s, init, id);
      AddTokenSound(mid, last, id);
      if !(u == last && x == id) {
        assert u in mid.postDict && x in PostingsOf(mid, u);
        AddTokensSound(s, init, id, u, x);
        if u in init {
          var k :| 0 <= k < |init| && init[k] == u;
          assert tokens[k] == u;
        }
      }
    }
  }

  /** Soundness of `index`: every id in the list of `t` is the id of a record
      that has `t` among its tokens. */
  lemma {:induction false} AddRecordsSound(records: seq<Record>, t: string, x: int)
    requires t in AddRecords(records).postDict && x in PostingsOf(AddRecords(records), t)
    ensures exists j :: 0 <= j < |records| && t in records[j].tokens && records[j].id == x
    decreases |records|
  {
    var n := |records| - 1;
    var init := records[..n];
    AddRecordsStep(records, n);
    assert records[..n + 1] == records;
    AddRecordsValid(init);
    AddTokensSound(AddRecords(init), records[n].tokens, records[n].id, t, x);
    if t in AddRecords(init).postDict && x in PostingsOf(AddRecords(init), t) {
      AddRecordsSound(init, t, x);
      var j :| 0 <= j < |init| && t in init[j].tokens && init[j].id == x;
      assert records[j] == init[j];
    } else {
      assert t in records[n].tokens && records[n].id == x;
    }
  }

  /** What `index` returns: the invariant, the keys, and every record's id
      under each of its tokens. */
  lemma AddRecordsIndexes(records: seq<Record>)
    ensures var r := AddRecords(records);
      && Valid(r)
      && (forall t :: t in r.postDict <==> exists j :: 0 <= j < |records| && t in records[j].tokens)
      && (forall j, t :: 0 <= j < |records| && t in records[j].tokens ==>
            t in r.postDict && records[j].id in r.allPostings[r.postDict[t].slot])
      && (forall t, x :: t in r.postDict && x in r.allPostings[r.postDict[t].slot] ==>
            exists j :: 0 <= j < |records| && t in records[j].tokens && records[j].id == x)
  {
    AddRecordsValid(records);
    forall t ensures t in AddRecords(records).postDict <==> exists j :: 0 <= j < |records| && t in records[j].tokens {
      AddRecordsKeys(records, t);
    }
    forall j, t | 0 <= j < |records| && t in records[j].tokens
      ensures t in AddRecords(records).postDict && records[j].id in PostingsOf(AddRecords(records), t)
    {
      AddRecordsComplete(records, j, t);
    }
    forall t, x | t in AddRecords(records).postDict && x in PostingsOf(AddRecords(records), t)
      ensures exists j :: 0 <= j < |records| && t in records[j].tokens && records[j].id == x
    {
      AddRecordsSound(records, t, x);
    }
  }

  // ---------------------------------------------------------------------------
  // Order within a list
  // ---------------------------------------------------------------------------

  /** The ids of the records that have `t` among their tokens, in record order,
      an id that comes back kept only where it first occurs. */
  function IdsWith(records: seq<Record>, t: string): (r: seq<int>)
    ensures NoDup(r)
    decreases |records|
  {
    if records == [] then []
    else
      var prev := IdsWith(records[..|records| - 1], t);
      var last := records[|records| - 1];
      if t in last.tokens && last.id !in prev then
        NoDupAppend(prev, last.id);
        prev + [last.id]
      else prev
  }

  /** `IdsWith` holds exactly the ids of the records that have `t`. */
  lemma {:induction false} IdsWithMembers(records: seq<Record>, t: string, x: int)
    ensures x in IdsWith(records, t) <==> exists j :: 0 <= j < |records| && t in records[j].tokens && records[j].id == x
    decreases |records|
  {
    if records != [] {
      var n := |records| - 1;
      var init := records[..n];
      IdsWithMembers(init, t, x);
      if exists j :: 0 <= j < |init| && t in init[j].tokens && init[j].id == x {
        var j :| 0 <= j < |init| && t in init[j].tokens && init[j].id == x;
        assert records[j] == init[j];
      }
      if exists j :: 0 <= j < |records| && t in records[j].tokens && records[j].id == x {
        var j :| 0 <= j < |records| && t in records[j].tokens && records[j].id == x;
        if j < n {
          assert init[j] == records[j];
        }
      }
    }
  }

  /** The list of `t`, or no ids when `t` is not a key. */
  function ListOf(s: State, t: string): seq<int>
    requires SlotsInRange(s)
  {
    if t in s.postDict then PostingsOf(s, t) else []
  }

  /** One token appends `id` to the list of `token` when it lacks it, and
      leaves every other list as it was. */
  lemma AddTokenList(s: State, token: string, id: int, u: string)
    requires Valid(s)
    ensures ListOf(AddToken(s, token, id), u) ==
              if u == token && id !in ListOf(s, u) then ListOf(s, u) + [id] else ListOf(s, u)
  {
    var r := AddToken(s, token, id);
    if token !in s.postDict {
      if u in s.postDict {
        assert s.postDict[u].slot < |s.allPostings|;
        assert PostingsOf(r, u) == PostingsOf(s, u);
      }
    } else if id !in PostingsOf(s, token) {
      AppendFrame(s, token, id);
    }
  }

  /** One record appends its id, once, to the list of each of its tokens that
      lacks it, and leaves every other list as it was. */
  lemma {:induction false} AddTokensList(s: State, tokens: seq<string>, id: int, u: string)
    requires Valid(s)
    ensures ListOf(AddTokens(s, tokens, id), u) ==
              if u in tokens && id !in ListOf(s, u) then ListOf(s, u) + [id] else ListOf(s, u)
    decreases |tokens|
  {
    if tokens != [] {
      var init, last := tokens[..|tokens| - 1], tokens[|tokens| - 1];
      var mid := AddTokens(s, init, id);
      assert AddTokens(s, tokens, id) == AddToken(mid, last, id);
      AddTokensList(s, init, id, u);
      AddTokensValid(s, init, id);
      AddTokenList(mid, last, id, u);
      InInitOrLast(tokens, u);
      var before, between := ListOf(s, u), ListOf(mid, u);
      if u in init && id !in before {
        assert between == before + [id] && id in between;
      } else {
        assert between == before;
      }
    }
  }

  /** The list of a token holds the ids of the records that have it in the order
      the records come, whether or not their ids ascend; a token that is not a
      key has no such record. */
  lemma {:induction false} AddRecordsListOrder(records: seq<Record>, t: string)
    ensures t in AddRecords(records).postDict ==> PostingsOf(AddRecords(records), t) == IdsWith(records, t)
    ensures t !in AddRecords(records).postDict ==> IdsWith(records, t) == []
    decreases |records|
  {
    if records != [] {
      var n := |records| - 1;
      var init := records[..n];
      AddRecordsListOrder(init, t);
      AddRecordsValid(init);
      AddTokensList(AddRecords(init), records[n].tokens, records[n].id, t);
    }
  }

  /** Records need not come sorted by id: `(5, ["a"])` then `(3, ["a"])` list
      `a` as `[5, 3]`. */
  lemma UnsortedRecordsKeepArrivalOrder()
    ensures var records := [Record(5, ["a"]), Record(3, ["a"])];
      "a" in AddRecords(records).postDict && PostingsOf(AddRecords(records), "a") == [5, 3]
  {
    var records := [Record(5, ["a"]), Record(3, ["a"])];
    assert records[..1] == [Record(5, ["a"])] && records[..1][..0] == [];
    assert IdsWith(records[..1], "a") == [5];
    AddRecordsKeys(records, "a");
    assert "a" in records[0].tokens;
    AddRecordsListOrder(records, "a");
  }

  // ---------------------------------------------------------------------------
  // Order of all_postings
  // ---------------------------------------------------------------------------

  /** `seen` followed by the tokens of `tokens` that are not yet in it, each
      once, in the order they first appear. */
  function Fresh(seen: seq<string>, tokens: seq<string>): (r: seq<string>)
    ensures seen <= r
    ensures forall t :: t in r <==> t in seen || t in tokens
    decreases |tokens|
  {
    if tokens == [] then seen
    else
      var s := Fresh(seen, tokens[..|tokens| - 1]);
      var t := tokens[|tokens| - 1];
      assert tokens == tokens[..|tokens| - 1] + [t];
      if t in s then s else s + [t]
  }

  /** The distinct tokens of the records, in order of first appearance. */
  function FirstAppearances(records: seq<Record>): seq<string>
    decreases |records|
  {
    if records == [] then []
    else Fresh(FirstAppearances(records[..|records| - 1]), records[|records| - 1].tokens)
  }

  /** `order[i]` is the key whose list is `allPostings[i]`, and every key is in `order`. */
  ghost predicate InSlotOrder(s: State, order: seq<string>)
  {
    && SlotsInRange(s)
    && |order| == |s.allPostings|
    && (forall i :: 0 <= i < |order| ==> order[i] in s.postDict && s.postDict[order[i]].slot == i)
    && (forall t :: t in s.postDict ==> t in order)
  }

  /** A new token gets the next list of `all_postings`; a known one keeps its list. */
  lemma AddTokenOrder(s: State, order: seq<string>, token: string, id: int)
    requires InSlotOrder(s, order)
    ensures InSlotOrder(AddToken(s, token, id), if token in order then order else order + [token])
  {
  }

  lemma {:induction false} AddTokensOrder(s: State, order: seq<string>, tokens: seq<string>, id: int)
    requires InSlotOrder(s, order)
    ensures InSlotOrder(AddTokens(s, tokens, id), Fresh(order, tokens))
    decreases |tokens|
  {
    if tokens != [] {
      var init := tokens[..|tokens| - 1];
      AddTokensOrder(s, order, init, id);
      AddTokenOrder(AddTokens(s, init, id), Fresh(order, init), tokens[|tokens| - 1], id);
    }
  }

  /** `all_postings` holds one list per distinct token, in the order the tokens
      first appear in the records, and `post_dict[t][2]` is the list at the
      position of `t` in that order. */
  lemma {:induction false} AddRecordsOrder(records: seq<Record>)
    ensures InSlotOrder(AddRecords(records), FirstAppearances(records))
    ensures NoDup(FirstAppearances(records))
    decreases |records|
  {
    if records != [] {
      var init := records[..|records| - 1];
      AddRecordsOrder(init);
      AddTokensOrder(AddRecords(init), FirstAppearances(init), records[|records| - 1].tokens, records[|records| - 1].id);
    }
    var r, order := AddRecords(records), FirstAppearances(records);
    forall i, j | 0 <= i < j < |order|
      ensures order[i] != order[j]
    {
      assert r.postDict[order[i]].slot != r.postDict[order[j]].slot;
    }
  }

  // ---------------------------------------------------------------------------
  // Ascending ids
  // ---------------------------------------------------------------------------

  /** Every list ascends and lists no id above `bound`. */
  ghost predicate AscendingUpTo(s: State, bound: int)
  {
    && SlotsInRange(s)
    && forall t :: t in s.postDict ==>
         StrictlyIncreasing(PostingsOf(s, t)) && forall x :: x in PostingsOf(s, t) ==> x <= bound
  }

  /** Appending an id above every listed one keeps a list ascending. */
  lemma AppendAscending(xs: seq<int>, id: int)
    requires StrictlyIncreasing(xs) && id !in xs && forall x :: x in xs ==> x <= id
    ensures StrictlyIncreasing(xs + [id])
  {
    var ys := xs + [id];
    forall i, j | 0 <= i < j < |ys|
      ensures ys[i] < ys[j]
    {
      if j == |xs| {
        assert ys[i] == xs[i] && xs[i] in xs;
      }
    }
  }

  lemma AddTokenAscending(s: State, token: string, id: int)
    requires Valid(s) && AscendingUpTo(s, id)
    ensures AscendingUpTo(AddToken(s, token, id), id)
  {
    var r := AddToken(s, token, id);
    forall u | u in r.postDict
      ensures StrictlyIncreasing(PostingsOf(r, u)) && forall x :: x in PostingsOf(r, u) ==> x <= id
    {
      if u == token {
        if token in s.postDict && id !in PostingsOf(s, token) {
          assert PostingsOf(r, u) == PostingsOf(s, token) + [id];
          AppendAscending(PostingsOf(s, token), id);
        }
      } else {
        if token in s.postDict {
          assert s.postDict[u].slot != s.postDict[token].slot;
        }
        assert PostingsOf(r, u) == PostingsOf(s, u);
      }
    }
  }

  lemma {:induction false} AddTokensAscending(s: State, tokens: seq<string>, id: int)
    requires Valid(s) && AscendingUpTo(s, id)
    ensures AscendingUpTo(AddTokens(s, tokens, id), id)
    decreases |tokens|
  {
    if tokens != [] {
      var init := tokens[..|tokens| - 1];
      AddTokensAscending(s, init, id);
      AddTokensValid(s, init, id);
      AddTokenAscending(AddTokens(s, init, id), tokens[|tokens| - 1], id);
    }
  }

  /** When record ids ascend, every postings list is strictly ascending: a list
      is in the order its ids were first met. */
  lemma {:induction false} AddRecordsAscending(records: seq<Record>, bound: int)
    requires forall i, j :: 0 <= i < j < |records| ==> records[i].id < records[j].id
    requires forall j :: 0 <= j < |records| ==> records[j].id <= bound
    ensures AscendingUpTo(AddRecords(records), bound)
    decreases |records|
  {
    if records != [] {
      var n := |records| - 1;
      var init := records[..n];
      var last := records[n];
      AddRecordsAscending(init, last.id);
      AddRecordsValid(init);
      AddTokensAscending(AddRecords(init), last.tokens, last.id);
    }
  }
}
