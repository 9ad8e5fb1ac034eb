/**
 * The dirty-block list: the 256-byte blocks of the image changed since the last
 * successful upload, kept sorted and without repetitions.
 */
module DirtyBlocks {

  /** Strictly increasing, hence sorted and free of duplicates. */
  predicate Sorted(s: seq<int>) {
    forall i, j :: 0 <= i < j < |s| ==> s[i] < s[j]
  }

  /** `block` put into its place in a sorted list; a block already listed is not added twice. */
  function Insert(s: seq<int>, block: int): (r: seq<int>)
    requires Sorted(s)
    ensures Sorted(r)
    ensures forall x :: x in r <==> x in s || x == block
  {
    if s == [] then [block]
    else if block < s[0] then [block] + s
    else if block == s[0] then s
    else
      var rest := Insert(s[1..], block);
      forall j | 0 <= j < |rest| ensures s[0] < rest[j] {
        assert rest[j] in rest;
      }
      SortedCons(s[0], rest);
      [s[0]] + rest
  }

  /** A value below every element of a sorted list may be put in front of it. */
  lemma SortedCons(a: int, rest: seq<int>)
    requires Sorted(rest)
    requires forall j :: 0 <= j < |rest| ==> a < rest[j]
    ensures Sorted([a] + rest)
  {
    var r := [a] + rest;
    forall i, j | 0 <= i < j < |r| ensures r[i] < r[j] {
      if i > 0 { assert r[i] == rest[i - 1] && r[j] == rest[j - 1]; }
    }
  }

  /** Two sorted lists with the same elements are the same list. */
  lemma {:induction false} SortedUnique(s: seq<int>, t: seq<int>)
    requires Sorted(s) && Sorted(t)
    requires forall x :: x in s <==> x in t
    ensures s == t
  {
    forall i | 0 <= i < |s| ensures s[i] in t {
      assert s[i] in s;
    }
    forall i | 0 <= i < |t| ensures t[i] in s {
      assert t[i] in t;
    }
    assert t != [] ==> t[0] in s;
    if s != [] {
      assert t != [];
      assert s[0] == t[0] by {
        assert s[0] in t && t[0] in s;
      }
      assert s == [s[0]] + s[1..] && t == [t[0]] + t[1..];
      forall x ensures x in s[1..] <==> x in t[1..] {
        if x in s[1..] { assert x > s[0]; }
        if x in t[1..] { assert x > t[0]; }
      }
      SortedUnique(s[1..], t[1..]);
    }
  }

  /**
   * `append(block)` followed by `sort()` gives exactly the list `Insert` builds, when the
   * block was not yet listed (that is the only case in which `add_dirty_block` appends).
   */
  lemma AppendThenSort(s: seq<int>, block: int, sorted: seq<int>)
    requires Sorted(s) && block !in s
    requires Sorted(sorted) && multiset(sorted) == multiset(s + [block])
    ensures sorted == Insert(s, block)
  {
    forall x ensures x in sorted <==> x in Insert(s, block) {
      calc {
        x in sorted;
        x in multiset(sorted);
        x in multiset(s + [block]);
        x in s + [block];
      }
    }
    SortedUnique(sorted, Insert(s, block));
  }

  /** Inserting a block that is already listed leaves the list as it was. */
  lemma {:induction false} InsertPresent(s: seq<int>, block: int)
    requires Sorted(s) && block in s
    ensures Insert(s, block) == s
  {
    if block != s[0] {
      assert block in s[1..];
      InsertPresent(s[1..], block);
    }
  }

  /** Offsets 0x1500 and 0x1510 lie in one block: marking both leaves one entry for it. */
  lemma SameBlockMarkedOnce(s: seq<int>)
    requires Sorted(s)
    ensures 0x1500 / 256 == 0x1510 / 256
    ensures Insert(Insert(s, 0x1500 / 256), 0x1510 / 256) == Insert(s, 0x1500 / 256)
  {
    InsertPresent(Insert(s, 0x1500 / 256), 0x1510 / 256);
  }

  /** `[b for b in dirty if b not in uploaded]`. */
  function Without(s: seq<int>, uploaded: seq<int>): (r: seq<int>)
    ensures forall x :: x in r <==> x in s && x !in uploaded
    ensures Sorted(s) ==> Sorted(r)
    ensures |r| <= |s|
  {
    if s == [] then []
    else if s[0] in uploaded then Without(s[1..], uploaded)
    else
      var rest := Without(s[1..], uploaded);
      if Sorted(s) then
        forall j | 0 <= j < |rest| ensures s[0] < rest[j] {
          assert rest[j] in rest;
        }
        SortedCons(s[0], rest);
        [s[0]] + rest
      else
        [s[0]] + rest
  }
}
