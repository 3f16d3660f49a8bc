# TwitterIQ inverted index, modelled in Dafny

TwitterIQ builds an in-memory inverted index over a corpus of tweets and
answers one- and two-term queries against it. This project models three parts
of the repository:

- `TwitterIQ` (`src/indexer.py`). This is a dict from raw token to a
  `PostingNode` (a frequency and a postings list).
  - `__missing__` creates the node of an unseen token. The node's list holds
    the current tweet id, and that list is also appended to `all_postings`.
  - `__index_tokens` walks the tokens of one tweet. It stops at the first token
    `__clean` rejects. For every other token it lists the tweet id under the
    token, unless the id is already listed.
  - `query` looks its terms up through the dict, so an absent term is inserted
    by `__missing__` (`src/indexer.py:146`) before its list is returned.
  - `get_tokens_from_tweet` and `get_most_freq_words` only read the index.
- The two postings containers of `src/postings_lists.py`:
  - `PostingsList` is backed by a set.
  - `NumericPostingsList` is a growable buffer of offsets from the first id.
- The plain-dict builder `index` of `src/index.py`.

Files:

- `wrappers.dfy` holds `Option`.
- `seqs.dfy` holds shared sequence facts and Python's `list(set)`.
- `indexer_spec.dfy` (module `IndexerSpec`) models the state of a `TwitterIQ`
  as a value. Its operations are functions, and the lemmas prove what they
  promise.
- `indexer.dfy` (module `Indexer`) holds the class `TwitterIQ`. Its fields
  change in place, and each method is proved against the `IndexerSpec`
  functions.
- `postings_lists.dfy` (module `PostingsLists`) holds both containers as
  classes. `NumericPostingsList` keeps its buffer in a Dafny `array`.
- `plain_index.dfy` (module `PlainIndex`) holds the loops of `index` as
  methods, proved against functions on the `post_dict`/`all_postings` pair.

A `PostingNode` (or a `[token, count, postings]` entry) stores the position of
its list in `allPostings`. The one list is then reachable both from the dict
and from `all_postings`, as the aliasing in the source makes it.

`__clean` is modelled on a `Lexicon` value. The value holds the punctuation
string, the emoji set and the stop words, and the `Lexicon` parameter stands
for the NLTK and emoji tables. Python's `token in string.punctuation` is a
substring test, so the empty token and every substring of
`string.punctuation`, such as `"()"`, are rejected. Runs such as `"..."` or
`"!!"` are not substrings of it, so they are indexed.
`IndexerSpec.PythonPunctuation` gives the standard value of the punctuation
string, and `IndexerSpec.PunctuationPieces` proves both cases against it.

Gap (delta) encoding would store each id as its difference from the previous
id. This code stores each id as its offset from the FIRST id of the list
(`src/postings_lists.py:71`, `92`, `99`), and the model follows the code.

## Model

| member | source | states |
|---|---|---|
| IndexerSpec.ParseLine | src/indexer.py:48-50 | a line yields a tweet exactly when it has at least four words; the id is the fourth word and the content is the words from the sixth on |
| IndexerSpec.ParseLineFields | src/indexer.py:48-50 | the id and content of any line are recovered whatever the other columns hold; a four- or five-word line has empty content |
| IndexerSpec.ParseCorpus | src/indexer.py:45-50 | the corpus fails (IndexError) exactly when some line has fewer than four words; otherwise the tweets are the lines parsed one by one, in order |
| IndexerSpec.Occurs | src/indexer.py:103 | `token in punctuation` on two strings; `OccursIsSubstring` proves it is the substring test |
| IndexerSpec.OccursIsSubstring | src/indexer.py:103 | `t` occurs in `s` exactly when some window of `s` of the length of `t` equals `t` |
| IndexerSpec.Lower | src/indexer.py:109 | `token.lower()` on ASCII: the same length, each capital becomes the lowercase letter at the same place in the alphabet, every other character unchanged |
| IndexerSpec.Clean | src/indexer.py:93-114 | `None` for a piece of the punctuation string, an emoji or a stop word, otherwise the lowercased token; its properties are stated by `CleanIsOnlyATruthTest` and `PunctuationPieces` |
| IndexerSpec.Accepts | src/indexer.py:83-84 | `not self.__clean(token)` read as Python truthiness, which decides where `__index_tokens` stops; `CleanIsOnlyATruthTest` proves it holds exactly when `__clean` returns a value, and `CleanPrefix` stops at the first token it rejects |
| IndexerSpec.CleanIsOnlyATruthTest | src/indexer.py:93-114 | a token is accepted exactly when `__clean` returns a value; the empty token never is; the value returned is the lowercased token, which indexing does not use |
| IndexerSpec.PunctuationAscends | src/indexer.py:103 | the characters of `string.punctuation` are strictly ascending |
| IndexerSpec.OccursFrom | src/indexer.py:103 | a string found at any position of `s` is a substring of `s` for `in` |
| IndexerSpec.DoubledNotOccurs | src/indexer.py:103 | a token whose first two characters are equal is no substring of a strictly ascending string |
| IndexerSpec.PunctuationPieces | src/indexer.py:103-104 | with the real punctuation string, `"()"` and `"{\|}~"` are rejected, while every token starting with a doubled character (such as `"..."` or `"!!"`) is accepted |
| IndexerSpec.CleanPrefix | src/indexer.py:82-84 | the tokens reached form a prefix of the content, all accepted, and the token after them (if any) is rejected |
| IndexerSpec.CleanPrefixAt | src/indexer.py:82-84 | a left-to-right walk meets an accepted token exactly while inside the reached prefix |
| IndexerSpec.Missing | src/indexer.py:58-68 | `__missing__` adds the key, whose list is `[current id]` and whose freq is 1; it changes no other node or list |
| IndexerSpec.MissingValid | src/indexer.py:66-67 | `__missing__` on an absent key keeps the index invariant: one list per key, freq equal to list length, no list empty or repeating an id |
| IndexerSpec.Lookup | src/indexer.py:87 | after `self[token]` the token is a key |
| IndexerSpec.LookupEffect | src/indexer.py:87 | `self[token]` keeps the invariant, yields the stored list (or `[current id]` for an absent token) and leaves every existing list unchanged |
| IndexerSpec.SeededAfterLookup | src/indexer.py:145-148 | the first `self[t1]` of a two-term query does not change what `self[t2]` then yields, also when `t2 == t1` |
| IndexerSpec.Append | src/indexer.py:88-91 | appending keeps the key set |
| IndexerSpec.AppendFrame | src/indexer.py:88-91 | appending changes only the token's list (old list plus the id) and its freq (plus one); every other node and list is untouched |
| IndexerSpec.AppendValid | src/indexer.py:88-91 | appending an id the list lacks keeps the invariant, so freq stays equal to the list length and no id repeats |
| IndexerSpec.IndexToken | src/indexer.py:86-91 | the keys after one token are the old keys plus that token |
| IndexerSpec.IndexTokenValid | src/indexer.py:86-91 | one token keeps the invariant |
| IndexerSpec.IndexTokenGrows | src/indexer.py:86-91 | the current id is listed under the token afterwards; every list keeps its old contents as a prefix |
| IndexerSpec.IndexTokenFrame | src/indexer.py:86-91 | no other token's list changes, and the token's list gains nothing but the current id |
| IndexerSpec.IndexAll | src/indexer.py:82-91 | the keys after a run of tokens are the old keys plus the tokens of the run |
| IndexerSpec.IndexAllStep | src/indexer.py:82-91 | indexing a run one token longer is indexing that token after the shorter run |
| IndexerSpec.IndexAllValid | src/indexer.py:82-91 | a run of tokens keeps the invariant |
| IndexerSpec.IndexAllGrows | src/indexer.py:82-91 | every token of the run lists the current id; every list keeps its old contents as a prefix |
| IndexerSpec.IndexAllFrame | src/indexer.py:82-91 | tokens outside the run keep their lists; every listed id is the current id or was listed before |
| IndexerSpec.IndexAllNoop | src/indexer.py:88 | a run whose tokens are all keys already listing the current id leaves the index as it was |
| IndexerSpec.IndexAllKeeps | src/indexer.py:82-91 | an id listed under a key stays listed after any run of tokens |
| IndexerSpec.IndexTokens | src/indexer.py:70-91 | `__index_tokens`: the walk up to the first rejected token; `IndexTokensEffect` and `IndexTokensIdempotent` state what it does |
| IndexerSpec.IndexTokensEffect | src/indexer.py:70-91 | after `__index_tokens` every token before the first rejected one is a key (the raw token) listing the current id; every other token keeps its key status and list; the invariant holds |
| IndexerSpec.IndexTokensIdempotent | src/indexer.py:55-56 | indexing the same content again under the same id changes nothing |
| IndexerSpec.IndexTokensTimes | src/indexer.py:55-56 | repeated calls of `__index_tokens` keep every node's list inside `all_postings` |
| IndexerSpec.IndexTokensTimesOnce | src/indexer.py:55-56 | `k` calls in a row do what one call does (none for `k == 0`) |
| IndexerSpec.IndexTokensPerToken | src/indexer.py:55-56 | one call per token of the content (no call for empty content) equals a single call |
| IndexerSpec.Build | src/indexer.py:45-56 | every node's list lies inside `all_postings` after any corpus |
| IndexerSpec.BuildNext | src/indexer.py:47-56 | reading tweet `i` indexes its content under its id on top of the index of the earlier tweets |
| IndexerSpec.BuildStep | src/indexer.py:47-56 | the last tweet adds exactly the tokens it reaches, under its own id |
| IndexerSpec.BuildValid | src/indexer.py:34-56 | after any corpus the invariant holds: `len(all_postings)` equals the number of keys, each freq equals its list length, no list repeats an id |
| IndexerSpec.BuildKeys | src/indexer.py:34-56 | the keys are exactly the tokens that some tweet reaches before its first rejected token |
| IndexerSpec.BuildPostingsSound | src/indexer.py:34-56 | every id in the list of `t` is the id of a tweet that reaches `t` |
| IndexerSpec.BuildStepAdds | src/indexer.py:47-56 | the last tweet is listed under every token it reaches |
| IndexerSpec.BuildStepKeeps | src/indexer.py:47-56 | reading a tweet keeps every id already listed |
| IndexerSpec.BuildPostingsComplete | src/indexer.py:34-56 | every tweet that reaches `t` is listed under `t` |
| IndexerSpec.Intersection | src/indexer.py:145-148 | the ids of a two-term `query`, after both lookups; `IntersectionMembers` and `IntersectionCommutes` state them |
| IndexerSpec.IntersectionMembers | src/indexer.py:145-148 | `query(t1, t2)` holds exactly the ids listed under both terms; an absent term counts as listing only the current id |
| IndexerSpec.IntersectionOfSeeded | src/indexer.py:145-148 | a list holding exactly the ids listed under both terms holds the ids of `Intersection` |
| IndexerSpec.IntersectionCommutes | src/indexer.py:145-148 | `query(t1, t2)` and `query(t2, t1)` hold the same ids |
| IndexerSpec.ContentOf | src/indexer.py:52 | `tweet_content_dict` after a corpus; `ContentOfLastTweet` and `ContentOfKeys` state what it maps |
| IndexerSpec.CurrentAfter | src/indexer.py:53 | `__current_tweet_id` after a corpus: the id of its last tweet; `ContentOfNext` states one more tweet |
| IndexerSpec.ContentOfLastTweet | src/indexer.py:52 | `tweet_content_dict` maps an id to the content of the last tweet with that id |
| IndexerSpec.ContentOfKeys | src/indexer.py:52 | an id is a key of `tweet_content_dict` exactly when some tweet has it |
| IndexerSpec.ContentOfNext | src/indexer.py:52-53 | reading a tweet records its content under its id and makes it the current tweet |
| IndexerSpec.Gt | src/indexer.py:180-181 | `__gt__` compares freqs; `NeAgreesWithGt` relates it to the corrected `__ne__` |
| IndexerSpec.NeAsWritten | src/indexer.py:177-178 | `__ne__` as written; `NeAsWrittenHoldsForSameNode` shows it holds for a node and itself |
| IndexerSpec.Ne | src/indexer.py:177-178 | `__ne__` as evidently intended; `NeAgreesWithGt` shows it agrees with `__gt__` |
| IndexerSpec.NeAsWrittenHoldsForSameNode | src/indexer.py:177-178 | as written, `__ne__` says every node differs from itself |
| IndexerSpec.NeAgreesWithGt | src/indexer.py:177-181 | the corrected `__ne__` holds exactly when one node's freq is greater than the other's, and never for a node and itself |
| Indexer.TwitterIQ.constructor | src/indexer.py:34-56 | `__init__` leaves the index equal to the build over the corpus, with `tweet_content_dict` and the current id as the corpus dictates and the invariant holding |
| Indexer.TwitterIQ.ReadTweet | src/indexer.py:52-56 | one line: the content is recorded, the tweet becomes current, and the index becomes `__index_tokens` of its content under its id |
| Indexer.TwitterIQ.IndexContent | src/indexer.py:55-56 | the per-token loop of repeated `__index_tokens` calls leaves the index as a single call would: `__index_tokens` of the content under the current id, with the invariant kept |
| Indexer.TwitterIQ.Missing | src/indexer.py:58-68 | the new state is `__missing__` of the old; the returned node is the one stored, with freq 1 over `[current id]` |
| Indexer.TwitterIQ.Get | src/indexer.py:87 | `self[token]` returns the stored node (creating it if absent), whose list is the stored list or `[current id]` |
| Indexer.TwitterIQ.IndexToken | src/indexer.py:86-91 | the loop body for an accepted token takes the old state to `IndexToken` of it |
| Indexer.TwitterIQ.IndexTokens | src/indexer.py:70-91 | the loop stops at the first rejected token, and the new state is the model of `__index_tokens`; the invariant is kept |
| Indexer.TwitterIQ.Query | src/indexer.py:136-148 | one term: inserts an absent term and returns its list; two terms: both lookups happen, the result holds each id listed under both terms exactly once, and its ids are `IndexerSpec.Intersection` of the state before the call |
| Indexer.TwitterIQ.GetTokensFromTweet | src/indexer.py:116-124 | returns the content of the last tweet read with the id, or KeyError (`None`) when no tweet had it |
| Indexer.TwitterIQ.PickMostFrequent | src/indexer.py:134 | picks a key no other key of the set exceeds in freq |
| Indexer.TwitterIQ.GetMostFreqWords | src/indexer.py:126-134 | returns `min(limit, #keys)` distinct keys (none for `limit <= 0`) in non-increasing freq; no key left out has a greater freq than one returned |
| PostingsLists.PostingsList.constructor | src/postings_lists.py:3-4 | the list holds exactly the given ids |
| PostingsLists.PostingsList.Add | src/postings_lists.py:6-7 | `add` adds the id; `len` grows by one exactly when it was absent, so adding twice is adding once |
| PostingsLists.PostingsList.Update | src/postings_lists.py:12-14 | `update(ps)` leaves the membership equal to the old ids together with `ps` |
| PostingsLists.PostingsList.SortedPostings | src/postings_lists.py:29-30 | `__str__` shows the held ids strictly ascending, each once |
| PostingsLists.Least | src/postings_lists.py:30 | the least element of a non-empty set |
| PostingsLists.PostingsList.Len | src/postings_lists.py:26-27 | `len` is the number of distinct ids; `PostingsList.Add` states how it grows |
| PostingsLists.PostingsList.GetItem | src/postings_lists.py:35-36 | `list[i]` is membership, not a position; the constructor, `Add` and `Update` are specified through it |
| PostingsLists.PostingsList.Gt | src/postings_lists.py:38-40 | `__gt__` compares sizes; `GtComparesSizesOnly` states it |
| PostingsLists.GtComparesSizesOnly | src/postings_lists.py:38-40 | `__gt__` is asymmetric, makes lists of equal size incomparable whatever they hold, and makes a proper superset greater |
| PostingsLists.Compress | src/postings_lists.py:87-92 | `compress`; `DecompressCompress` and `CompressDecompress` state the round-trips |
| PostingsLists.Decompress | src/postings_lists.py:94-99 | `decompress`; the ids a numeric list holds are `Decompress` of its stored prefix |
| PostingsLists.DecompressCompress | src/postings_lists.py:87-99 | decompressing undoes compressing exactly when the sequence is empty or starts with `first` |
| PostingsLists.CompressDecompress | src/postings_lists.py:87-99 | compressing undoes decompressing on sequences of `compress`'s own output form, which start with `first`; the buffer `add` writes starts with offset 0 instead, so this is about `compress`, not about what `add` stores |
| PostingsLists.Appended | src/postings_lists.py:71-75 | one `add` with room: the id joins unless it repeats the last one; `NumericPostingsList.Add` is proved against it through `AppendedAll` |
| PostingsLists.AppendedAll | src/postings_lists.py:71-75 | after adding a non-empty run, the last id held is the last one added |
| PostingsLists.AppendedAllElements | src/postings_lists.py:71-75 | adding loses no id and invents none: the ids held are the old ones together with the added ones |
| PostingsLists.AppendedAllAscending | src/postings_lists.py:71-75 | ids added in non-decreasing order are held strictly ascending, each run of equal ids collapsing to one |
| PostingsLists.NonAdjacentRepeatKept | src/postings_lists.py:72-73 | only immediate repeats are dropped: adding 1, 1, 2, 1 holds 1, 2, 1 |
| PostingsLists.NoGrowth | src/postings_lists.py:78 | multiplying the capacity by the rate leaves it unchanged only for capacity 0 or rate 1 |
| PostingsLists.NumericPostingsList.constructor | src/postings_lists.py:58-61 | an empty list with the given capacity and rate |
| PostingsLists.NumericPostingsList.ExtendArray | src/postings_lists.py:77-81 | the capacity is multiplied by the rate and the stored prefix is copied exactly into a new buffer |
| PostingsLists.NumericPostingsList.Add | src/postings_lists.py:63-75 | grows first when full; skips exactly when the id repeats the last stored one; otherwise stores its offset from `first`, so the ids held are the old ones plus the new one; `size <= capacity` is kept |
| PostingsLists.NumericPostingsList.Update | src/postings_lists.py:12-14 | inherited `update`: the ids held are those of adding each id in turn; it stops with an IndexError only when the buffer cannot grow (capacity 0 or rate 1), and then the list is full and holds the ids added before the failing one, which is no repeat of the last (`StoppedAt`) |
| PostingsLists.NumericPostingsList.Finalize | src/postings_lists.py:83-85 | the buffer becomes exactly the stored prefix, with `capacity == size`, and the ids held are unchanged |
| PostingsLists.NumericPostingsList.GetItem | src/postings_lists.py:107-108 | `list[i]` is the raw stored offset at a NumPy index (a negative index counts back from the end of the buffer, so after `finalize` `list[-1]` is the last stored offset), not membership; IndexError outside the buffer |
| PostingsLists.AddAsWritten | src/postings_lists.py:63-75 | `add` with room left and line 72 as written; `ZeroLastSlotKeepsListEmpty` shows the list it can leave empty |
| PostingsLists.ZeroLastSlotKeepsListEmpty | src/postings_lists.py:72-73 | as written, an empty list whose last buffer slot holds 0 drops the id and keeps its buffer, so it never stores anything |
| PlainIndex.AddToken | src/index.py:13-20 | the keys after one token are the old keys plus that token |
| PlainIndex.AddTokens | src/index.py:12-20 | the keys after a record are the old keys plus its tokens |
| PlainIndex.AddTokensStep | src/index.py:12-20 | one more token of a record is one more `AddToken` |
| PlainIndex.AddRecords | src/index.py:1-22 | what `index` returns; `AddRecordsIndexes`, `AddRecordsOrder` and `AddRecordsListOrder` state it |
| PlainIndex.AddRecordsStep | src/index.py:7-20 | one more record is its tokens added on top of the earlier records |
| PlainIndex.Index | src/index.py:1-22 | `index` returns the model over all records: the invariant holds, the keys are exactly the tokens of the records, every token lists the id of every record that has it, a list holds only ids of records that have its key, and each list is `IdsWith`, in record order |
| PlainIndex.IndexRecord | src/index.py:12-20 | the inner loop takes the state to `AddTokens` of the record's tokens |
| PlainIndex.IndexToken | src/index.py:13-20 | the body for one token takes the state to `AddToken` of it |
| PlainIndex.AppendFrame | src/index.py:15-17 | appending changes only the token's list (old list plus the id) and its count (plus one) |
| PlainIndex.AppendValid | src/index.py:15-17 | appending an absent id keeps the invariant: `entry[0]` is the key, `entry[1] == len(entry[2])`, no id repeats |
| PlainIndex.NewKeyValid | src/index.py:18-20 | a new key `[token, 1, [id]]` keeps the invariant |
| PlainIndex.AddTokenValid | src/index.py:13-20 | one token keeps the invariant |
| PlainIndex.AddTokensValid | src/index.py:12-20 | one record keeps the invariant |
| PlainIndex.AddRecordsValid | src/index.py:7-20 | after all records, every entry names its key, counts its list, and no list repeats an id |
| PlainIndex.AddRecordsKeys | src/index.py:7-20 | the keys are exactly the tokens of the records |
| PlainIndex.AddTokenGrows | src/index.py:13-20 | the id is listed under the token afterwards; every list keeps its old contents as a prefix |
| PlainIndex.AddTokensGrows | src/index.py:12-20 | every token of the record lists its id; lists only lengthen |
| PlainIndex.AddTokensKeeps | src/index.py:12-20 | an id listed under a key stays listed |
| PlainIndex.AddRecordsComplete | src/index.py:7-20 | every token of every record is a key whose list holds that record's id |
| PlainIndex.AddTokenSound | src/index.py:13-20 | after one token, an id listed under a key is either this id under this token or was listed under that key before |
| PlainIndex.AddTokensSound | src/index.py:12-20 | after a record, an id listed under a key is either the record's id under one of its tokens or was listed before |
| PlainIndex.AddRecordsSound | src/index.py:7-20 | every id listed under a token belongs to some record that has that token |
| PlainIndex.AddRecordsIndexes | src/index.py:7-22 | the invariant, the keys, completeness and soundness together, as `index` returns them |
| PlainIndex.IdsWith | src/index.py:15-20 | the ids of the records that have a token, in record order, each once |
| PlainIndex.IdsWithMembers | src/index.py:7-20 | `IdsWith` holds exactly the ids of the records that have the token |
| PlainIndex.AddTokenList | src/index.py:13-20 | one token appends the id to its own list when the list lacks it, and changes no other list |
| PlainIndex.AddTokensList | src/index.py:12-20 | one record appends its id, once, to the list of each of its tokens that lacks it, and changes no other list |
| PlainIndex.AddRecordsListOrder | src/index.py:7-20 | the list of every key is `IdsWith`: first-occurrence order of the records, whether or not their ids ascend; a non-key has no record |
| PlainIndex.UnsortedRecordsKeepArrivalOrder | src/index.py:7-20 | records `(5, ["a"])` then `(3, ["a"])` list `a` as `[5, 3]` |
| PlainIndex.Fresh | src/index.py:18-20 | the new tokens of a record join after the known ones, so the known order is a prefix and the set is the union |
| PlainIndex.AddTokenOrder | src/index.py:18-20 | a new token gets the next list of `all_postings`; a known one keeps its list |
| PlainIndex.AddTokensOrder | src/index.py:12-20 | after a record, the lists of `all_postings` belong to the keys in first-appearance order |
| PlainIndex.AddRecordsOrder | src/index.py:7-20 | `all_postings` holds one list per distinct token, in order of first appearance, and `post_dict[t][2]` is the list at the position of `t` |
| PlainIndex.AppendAscending | src/index.py:16 | appending an id above every listed one keeps a list ascending |
| PlainIndex.AddTokenAscending | src/index.py:13-20 | one token keeps every list ascending and bounded by the id |
| PlainIndex.AddTokensAscending | src/index.py:12-20 | one record keeps every list ascending and bounded by its id |
| PlainIndex.AddRecordsAscending | src/index.py:7-20 | when record ids ascend, every postings list is strictly ascending |
| Seqs.NoDupAppend | src/indexer.py:88-90 | appending an element the sequence lacks keeps it free of repeats |
| Seqs.ListOfSet | src/indexer.py:148 | `list(set)` holds every element of the set once |
| Seqs.ListOfIntersection | src/indexer.py:148 | `list(set(a) & set(b))` holds exactly what both `a` and `b` hold |

## Left out

- Reading the corpus file and splitting lines into words (`src/indexer.py:45-48`, `src/index.py:6-8`) are not modelled. The model starts from the words of each line (`ParseCorpus`) or from the parsed tweets and records. `int(tweet[3])` in `src/index.py` is taken as already done: `Record.id` is an `int`.
- The NLTK stop words and `emoji.UNICODE_EMOJI` are not modelled; the `Lexicon` parameter stands for them.
- `IndexerSpec.Lower`: lowercases ASCII letters only. Python's `str.lower` also folds non-ASCII letters, and Dafny has no Unicode case tables.
- The class `TwitterIQ` keeps a ghost copy of the corpus so that `tweet_content_dict` and the current tweet id can be specified against it. The source keeps no such copy.
- `print_query`, `__str__`/`__repr__` of every class, `PostingsList.as_array`, `__add__` and `__call__` are not modelled. They only format output or call NumPy; `__str__` of `PostingsList` is modelled only as the ascending order it shows (`SortedPostings`).
- `np` is never imported in `src/postings_lists.py`, so the module as written fails when it is loaded (the default `dtype=np.uint32` of line 45). The model describes the evident behaviour of the module as if NumPy were imported.
- `PostingsLists.NumericPostingsList.constructor`: models only a list built from no ids, and requires an expansion rate of at least 1 (with rate 0 the grown buffer is empty and the NumPy slice assignment of line 80 raises). With initial ids, the constructor (lines 47-61) sets `size` to their count before any is stored, so `update` reads uninitialised slots. Its other branch (more ids than `capacity`, lines 53-56) passes the set to `compress`, which raises TypeError once it holds two or more distinct ids; with one id it stores `[first]` in slot 0, where `add` would store 0.
- `PostingsLists.NumericPostingsList.Add`: ids are unbounded integers. The `uint32` conversion of line 64 and the wrap-around of `posting_ - self.first` are not modelled, so an id below `first` gives a negative offset here.
- `PostingsLists.NumericPostingsList.ExtendArray`: the new buffer has the same element type as the old one. In the source `np.empty` makes a float64 buffer (line 79), so later offsets become floats.
- `PostingsLists.NumericPostingsList.Finalize`: `postings[:size]` is a NumPy view that shares the old buffer. The model makes a fresh array with the same contents.
- `__len__` of `NumericPostingsList` is inherited and measures the buffer. It is not modelled separately; `size` and `capacity` are fields of the model.
- `Indexer.TwitterIQ.GetMostFreqWords`: does not fix the order among keys of equal freq. `heapq.nlargest` compares `[node, position, key]` entries; two distinct nodes are unequal by identity, so the comparison stops at the nodes and never reaches the position, and the order among equal freqs depends on the heap's moves. The contract only requires a non-increasing freq order.
- `Indexer.TwitterIQ.Query`: a one-term query returns the stored list itself, so a caller's later change to the result would change the index. The model returns a copy of the list's value.
- `PlainIndex` keeps `post_dict` and `all_postings` as values that its methods return. The `[token, count, postings]` lists that the source mutates in place are modelled by slot, not as shared objects.
- `PostingsLists.PostingsList` holds `int` ids, where the source accepts any hashable value (and its `__str__` needs values that compare). The default arguments `limit=3` of `get_most_freq_words` (`src/indexer.py:126`) and `capacity=10`, `expansion_rate=2` of `NumericPostingsList` (`src/postings_lists.py:45`) are not modelled: callers pass every value, and the expansion rate is a `nat`.
- Concurrency: none in the source.

## Findings

| source | as written | input that shows it | evidently intended | confidence | as-written member | corrected member |
|---|---|---|---|---|---|---|
| src/indexer.py:177-178 | `__ne__` returns `self.freq == other.freq` | any node `n`: `n != n` is `True` | `self.freq != other.freq` | high, not executed | IndexerSpec.NeAsWrittenHoldsForSameNode | IndexerSpec.NeAgreesWithGt |
| src/postings_lists.py:72 | at `size == 0`, `self.postings[self.size - 1]` reads index -1, the last buffer slot, which no `add` has written | an empty list whose zero-filled buffer ends in 0: `add(p)` sees `0 == p - p` and stores nothing, forever | no duplicate test on an empty list | medium (`np.empty` leaves the slot's content unspecified), not executed | PostingsLists.ZeroLastSlotKeepsListEmpty | PostingsLists.NumericPostingsList.Add |
