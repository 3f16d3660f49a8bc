/**
 * The two postings-list containers of src/postings_lists.py.
 *
 * `PostingsList` keeps document ids in a set. `NumericPostingsList` keeps them
 * in a fixed-width buffer with explicit `size` and `capacity`: each id is
 * stored as its offset from the FIRST id the list received (not as a gap from
 * the previous id), the buffer grows by `expansionRate` when it is full, and
 * `Finalize` trims it to `size`.
 */
module PostingsLists {
  import opened Wrappers
  import opened Seqs

  // ---------------------------------------------------------------------------
  // The set-backed list
  // ---------------------------------------------------------------------------

  /** A duplicate-free postings list backed by a set. */
  class PostingsList {
    var postings: set<int>

    constructor (postings: seq<int>)
      ensures forall i :: GetItem(i) <==> i in postings
    {
      this.postings := set p | p in postings;
    }

    /** `len(list)`: how many distinct ids the list holds. */
    function Len(): nat
      reads this
    {
      |postings|
    }

    /** `list[i]`: whether `i` is held. This is membership, not a position. */
    function GetItem(i: int): bool
      reads this
    {
      i in postings
    }

    /** `a > b`: compares how many ids the lists hold, never which ids. */
    function Gt(other: PostingsList): bool
      reads this, other
    {
      Len() > other.Len()
    }

    method Add(posting: int)
      modifies this
      ensures forall i :: GetItem(i) <==> old(GetItem(i)) || i == posting
      ensures Len() == if old(GetItem(posting)) then old(Len()) else old(Len()) + 1
    {
      if posting in postings {
        assert postings + {posting} == postings;
      }
      postings := postings + {posting};
    }

    method Update(ps: seq<int>)
      modifies this
      ensures forall i :: GetItem(i) <==> old(GetItem(i)) || i in ps
    {
      for k := 0 to |ps|
        invariant forall i :: GetItem(i) <==> old(GetItem(i)) || i in ps[..k]
      {
        Add(ps[k]);
        assert ps[..k + 1] == ps[..k] + [ps[k]];
      }
    }

    /** The order in which `str(list)` shows the ids: `sorted(list(postings))`. */
    method SortedPostings() returns (r: seq<int>)
      ensures StrictlyIncreasing(r)
      ensures forall i :: i in r <==> GetItem(i)
    {
      r := [];
      var rest := postings;
      while rest != {}
        invariant rest <= postings
        invariant StrictlyIncreasing(r)
        invariant forall i :: i in r <==> i in postings && i !in rest
        invariant forall i, j :: i in r && j in rest ==> i < j
        decreases |rest|
      {
        var m := Least(rest);
        var longer := r + [m];
        forall i, j | 0 <= i < j < |longer|
          ensures longer[i] < longer[j]
        {
          if j == |r| {
            assert r[i] in r;
          }
        }
        r := longer;
        rest := rest - {m};
      }
    }
  }

  /** The smallest element of a non-empty set. */
  method Least(s: set<int>) returns (m: int)
    requires s != {}
    ensures m in s
    ensures forall x :: x in s ==> m <= x
  {
    m := Choose(s);
    var rest := s - {m};
    while rest != {}
      invariant rest <= s
      invariant m in s
      invariant forall x :: x in s && x !in rest ==> m <= x
      decreases |rest|
    {
      var x := Choose(rest);
      if x < m {
        m := x;
      }
      rest := rest - {x};
    }
  }

  /** `__gt__` orders lists by size alone: it is asymmetric, lists of equal size
      are incomparable whatever they hold, and a proper superset is greater. */
  lemma GtComparesSizesOnly(a: PostingsList, b: PostingsList)
    ensures a.Gt(b) ==> !b.Gt(a)
    ensures a.Len() == b.Len() ==> !a.Gt(b) && !b.Gt(a)
    ensures a.postings < b.postings ==> b.Gt(a)
  {
    if a.postings < b.postings {
      var extra := b.postings - a.postings;
      assert b.postings == a.postings + extra;
      assert extra != {};
    }
  }

  // ---------------------------------------------------------------------------
  // Offset encoding
  // ---------------------------------------------------------------------------

  /** `compress`: the first id as it is, every later one as its offset from `first`. */
  function Compress(first: int, xs: seq<int>): seq<int>
  {
    seq(|xs|, i requires 0 <= i < |xs| => if i == 0 then first else xs[i] - first)
  }

  /** `decompress`: `first`, then every later stored offset plus `first`. */
  function Decompress(first: int, ys: seq<int>): seq<int>
  {
    seq(|ys|, i requires 0 <= i < |ys| => if i == 0 then first else ys[i] + first)
  }

  /** Decompressing undoes compressing exactly when the sequence starts with `first`. */
  lemma DecompressCompress(first: int, xs: seq<int>)
    ensures Decompress(first, Compress(first, xs)) == xs <==> xs == [] || xs[0] == first
  {
    var ys := Decompress(first, Compress(first, xs));
    assert |ys| == |xs|;
    if xs != [] && xs[0] != first {
      assert ys[0] != xs[0];
    } else {
      forall i | 0 <= i < |xs|
        ensures ys[i] == xs[i]
      {
      }
    }
  }

  /** Compressing undoes decompressing when the stored sequence starts with `first`. */
  lemma CompressDecompress(first: int, ys: seq<int>)
    requires ys == [] || ys[0] == first
    ensures Compress(first, Decompress(first, ys)) == ys
  {
    var zs := Compress(first, Decompress(first, ys));
    assert |zs| == |ys|;
    forall i | 0 <= i < |ys|
      ensures zs[i] == ys[i]
    {
    }
  }

  // ---------------------------------------------------------------------------
  // The numeric list
  // ---------------------------------------------------------------------------

  /** How a call to `NumericPostingsList.Add` ends. */
  datatype AddOutcome = Stored | SkippedDuplicate | IndexError

  /** The ids a numeric list holds after `add(p)`: `p` joins unless it repeats
      the most recently stored id. */
  function Appended(xs: seq<int>, p: int): seq<int>
  {
    if xs != [] && xs[|xs| - 1] == p then xs else xs + [p]
  }

  /** The ids a numeric list holds after adding each of `ps` in turn. */
  function AppendedAll(xs: seq<int>, ps: seq<int>): (r: seq<int>)
    ensures ps != [] ==> r != [] && r[|r| - 1] == ps[|ps| - 1]
    decreases |ps|
  {
    if ps == [] then xs else Appended(AppendedAll(xs, ps[..|ps| - 1]), ps[|ps| - 1])
  }

  /** Adding never loses an id and never invents one: as a set, the result is
      the old ids together with the added ones. */
  lemma {:induction false} AppendedAllElements(xs: seq<int>, ps: seq<int>)
    ensures forall x :: x in AppendedAll(xs, ps) <==> x in xs || x in ps
  {
    if ps != [] {
      var init := ps[..|ps| - 1];
      AppendedAllElements(xs, init);
      assert ps == init + [ps[|ps| - 1]];
    }
  }

  /** Ids added in non-decreasing order, after ids already strictly increasing,
      are stored strictly increasing: a run of equal ids collapses to one. */
  lemma {:induction false} AppendedAllAscending(xs: seq<int>, ps: seq<int>)
    requires StrictlyIncreasing(xs)
    requires forall i, j :: 0 <= i < j < |ps| ==> ps[i] <= ps[j]
    requires xs != [] && ps != [] ==> xs[|xs| - 1] <= ps[0]
    ensures StrictlyIncreasing(AppendedAll(xs, ps))
  {
    if ps != [] {
      var init := ps[..|ps| - 1];
      var p := ps[|ps| - 1];
      AppendedAllAscending(xs, init);
      var before := AppendedAll(xs, init);
      if before != [] && before[|before| - 1] != p {
        if init != [] {
          assert before[|before| - 1] == init[|init| - 1] <= p;
        }
        assert before[|before| - 1] < p;
        var after := before + [p];
        forall i, j | 0 <= i < j < |after|
          ensures after[i] < after[j]
        {
          if j == |after| - 1 && i < |before| - 1 {
            assert before[i] < before[|before| - 1];
          }
        }
      }
    }
  }

  /** Only immediately repeated ids are dropped: an id that comes back after a
      different one is stored again. */
  lemma NonAdjacentRepeatKept()
    ensures AppendedAll([], [1, 1, 2, 1]) == [1, 2, 1]
  {
    assert [1, 1, 2, 1][..3] == [1, 1, 2];
    assert [1, 1, 2][..2] == [1, 1];
    assert [1, 1][..1] == [1];
  }

  /** Multiplying a capacity by the rate leaves it as it was only for an empty
      buffer or a rate of 1. */
  lemma NoGrowth(c: nat, rate: nat)
    requires c * rate == c
    ensures c == 0 || rate == 1
  {
  }

  /**
   * A growable buffer of ids stored as offsets from `first`.
   * Slot 0 holds the offset of the first id, 0; `decompress` yields `first`
   * for it.
   */
  class NumericPostingsList {
    var postings: array<int>
    var size: nat
    var capacity: nat
    var first: int
    const expansionRate: nat

    ghost predicate Valid()
      reads this, postings
    {
      && postings.Length == capacity
      && size <= capacity
      && expansionRate >= 1
      && (size > 0 ==> postings[0] == 0)
    }

    /** The ids the list holds, recovered from the stored offsets. */
    ghost function Contents(): seq<int>
      reads this, postings
      requires Valid()
    {
      Decompress(first, postings[..size])
    }

    /** An empty list with room for `capacity` offsets. */
    constructor (capacity: nat, expansionRate: nat)
      requires expansionRate >= 1
      ensures Valid() && fresh(postings)
      ensures Contents() == []
      ensures this.capacity == capacity && this.expansionRate == expansionRate
    {
      postings := new int[capacity];
      size := 0;
      this.capacity := capacity;
      first := 0;
      this.expansionRate := expansionRate;
    }

    /** `_extend_array`: a buffer `expansionRate` times larger holding the same stored prefix. */
    method ExtendArray()
      requires Valid() && size == capacity
      modifies this
      ensures Valid() && fresh(postings)
      ensures capacity == old(capacity) * expansionRate
      ensures size == old(size) && first == old(first)
      ensures postings[..size] == old(postings[..size])
    {
      capacity := capacity * expansionRate;
      var grown := new int[capacity];
      forall i | 0 <= i < size {
        grown[i] := postings[i];
      }
      assert grown[..size] == postings[..size];
      postings := grown;
    }

    /** `add`: grow first when full, then store the offset of `posting` unless
        it repeats the most recently stored id. */
    method Add(posting: int) returns (outcome: AddOutcome)
      requires Valid()
      modifies this, postings
      ensures Valid()
      ensures postings == old(postings) || fresh(postings)
      ensures capacity == if old(size) == old(capacity) then old(capacity) * expansionRate else old(capacity)
      ensures outcome == SkippedDuplicate <==> old(size) > 0 && old(Contents())[old(size) - 1] == posting
      ensures outcome == IndexError <==>
                !(old(size) > 0 && old(Contents())[old(size) - 1] == posting) && old(size) == capacity
      ensures Contents() == if outcome == Stored then old(Contents()) + [posting] else old(Contents())
      ensures size == if outcome == Stored then old(size) + 1 else old(size)
      ensures postings[..old(size)] == old(postings[..size])
    {
      ghost var before := Contents();
      if size == 0 {
        first := posting;
      }
      if size == capacity {
        ExtendArray();
      }
      var compressed := posting - first;
      if size > 0 && postings[size - 1] == compressed {
        return SkippedDuplicate;
      }
      if size == capacity {
        return IndexError;
      }
      postings[size] := compressed;
      size := size + 1;
      assert postings[..size] == postings[..size - 1] + [compressed];
      outcome := Stored;
    }

    /** A full list holding the ids of `start` followed by `ps[..k]`, whose
        next id `ps[k]` is no repeat of the last one held: `add(ps[k])` raises
        IndexError here. */
    ghost predicate StoppedAt(start: seq<int>, ps: seq<int>, k: int)
      reads this, postings
      requires Valid()
    {
      && 0 <= k < |ps|
      && size == capacity
      && Contents() == AppendedAll(start, ps[..k])
      && !(size > 0 && Contents()[size - 1] == ps[k])
    }

    /** `update`, inherited from `PostingsList`: `add` each id in turn, stopping
        at the first IndexError. */
    method Update(ps: seq<int>) returns (failed: bool)
      requires Valid()
      modifies this, postings
      ensures Valid()
      ensures !failed ==> Contents() == AppendedAll(old(Contents()), ps)
      ensures failed ==> old(capacity) == 0 || expansionRate == 1
      ensures failed ==> exists k :: StoppedAt(old(Contents()), ps, k)
    {
      ghost var start := Contents();
      for k := 0 to |ps|
        invariant Valid()
        invariant postings == old(postings) || fresh(postings)
        invariant capacity >= old(capacity)
        invariant Contents() == AppendedAll(start, ps[..k])
      {
        ghost var c, n, before := capacity, size, Contents();
        var outcome := Add(ps[k]);
        if outcome == IndexError {
          assert n == c && capacity == c * expansionRate && n == capacity;
          assert StoppedAt(start, ps, k);
          NoGrowth(c, expansionRate);
          return true;
        }
        assert |before| == n;
        assert Contents() == Appended(before, ps[k]);
        assert ps[..k + 1][..k] == ps[..k];
      }
      assert ps[..|ps|] == ps;
      failed := false;
    }

    /** `finalize`: trim the buffer to the stored prefix. */
    method Finalize()
      requires Valid()
      modifies this
      ensures Valid() && fresh(postings)
      ensures capacity == size == old(size)
      ensures postings[..] == old(postings[..size])
      ensures Contents() == old(Contents())
    {
      var trimmed := new int[size];
      forall i | 0 <= i < size {
        trimmed[i] := postings[i];
      }
      postings := trimmed;
      capacity := size;
    }

    /** `list[item]`: the raw stored offset at a NumPy index (a negative index
        counts from the end of the buffer); `None` is IndexError. */
    function GetItem(item: int): (r: Option<int>)
      reads this, postings
      requires Valid()
      ensures r.Some? <==> -(capacity as int) <= item < capacity
      ensures 0 < item < size ==> r == Some(Contents()[item] - first)
      ensures 0 == item < size ==> r == Some(0)
      ensures -(capacity as int) <= item < 0 && 0 < capacity + item < size ==>
                r == Some(Contents()[capacity + item] - first)
      ensures -(capacity as int) == item && 0 < size ==> r == Some(0)
    {
      if 0 <= item < capacity then Some(postings[item])
      else if -(capacity as int) <= item < 0 then Some(postings[capacity + item])
      else None
    }
  }

  // ---------------------------------------------------------------------------
  // Line 72 as written
  // ---------------------------------------------------------------------------

  /** The stored part of a numeric list: the raw buffer (its length is the
      capacity), how many slots are stored, and the first id. */
  datatype Buffer = Buffer(slots: seq<int>, size: nat, first: int)

  /** `add(posting)` on a list with room left, with the duplicate test of line
      72 as written: at size 0 the index `size - 1` is -1, which NumPy reads as
      the buffer's LAST slot, a slot no add has written. */
  function AddAsWritten(b: Buffer, posting: int): (r: Buffer)
    requires b.size < |b.slots|
  {
    var first := if b.size == 0 then posting else b.first;
    var last := if b.size == 0 then |b.slots| - 1 else b.size - 1;
    if b.slots[last] == posting - first then b.(first := first)
    else Buffer(b.slots[b.size := posting - first], b.size + 1, first)
  }

  /** When the last slot of an empty list's buffer holds 0 (as zero-filled
      memory does), `add` drops the id and leaves the buffer and size as they
      were, so every later `add` meets the same test: the list stays empty. */
  lemma ZeroLastSlotKeepsListEmpty(b: Buffer, posting: int)
    requires b.size == 0 && |b.slots| > 0 && b.slots[|b.slots| - 1] == 0
    ensures AddAsWritten(b, posting).size == 0
    ensures AddAsWritten(b, posting).slots == b.slots
  {
  }
}
