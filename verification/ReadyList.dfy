/** Lists of task ids kept in order of a numeric key.

    Both schedulers keep their ready list sorted with `binary_search` followed
    by `Vec::insert`.  When several entries have the searched key, Rust leaves
    open which of their positions is returned, and on an unsorted list any
    position may come back.  A search is therefore a parameter here: every
    function that meets `FindsSlot`, and every theorem holds for all of them. */
module ReadyList {

  type Search = (seq<nat>, nat) -> nat

  ghost predicate Sorted(keys: seq<nat>) {
    forall i, j :: 0 <= i < j < |keys| ==> keys[i] <= keys[j]
  }

  /** The slot splits the keys into those at most `key` and those at least `key`. */
  ghost predicate Splits(keys: seq<nat>, key: nat, slot: nat) {
    && slot <= |keys|
    && (forall i :: 0 <= i < slot ==> keys[i] <= key)
    && (forall i :: slot <= i < |keys| ==> key <= keys[i])
  }

  ghost predicate FindsSlot(find: Search) {
    forall keys, key ::
      && find(keys, key) <= |keys|
      && (Sorted(keys) ==> Splits(keys, key, find(keys, key)))
  }

  predicate Distinct(list: seq<nat>) {
    forall i, j :: 0 <= i < j < |list| ==> list[i] != list[j]
  }

  /** `Vec::insert`. */
  function InsertAt(list: seq<nat>, slot: nat, x: nat): (r: seq<nat>)
    ensures |r| == |list| + 1
    ensures forall y :: y in r <==> y in list || y == x
  {
    if slot == 0 || list == [] then [x] + list
    else
      var rest := InsertAt(list[1..], slot - 1, x);
      assert list == [list[0]] + list[1..];
      [list[0]] + rest
  }

  lemma {:induction false} InsertAtIs(list: seq<nat>, slot: nat, x: nat)
    requires slot <= |list|
    ensures InsertAt(list, slot, x) == list[..slot] + [x] + list[slot..]
  {
    if slot != 0 { InsertAtIs(list[1..], slot - 1, x); }
  }

  /** `Vec::retain(|y| y != x)`. */
  function Without(list: seq<nat>, x: nat): (r: seq<nat>)
    ensures |r| <= |list|
    ensures forall y :: y in r <==> y in list && y != x
  {
    if list == [] then []
    else if list[0] == x then Without(list[1..], x)
    else [list[0]] + Without(list[1..], x)
  }

  lemma {:induction false} WithoutDistinct(list: seq<nat>, x: nat)
    requires Distinct(list)
    ensures Distinct(Without(list, x))
  {
    if list != [] {
      WithoutDistinct(list[1..], x);
      var rest := Without(list[1..], x);
      assert list[0] !in rest;
      assert forall i :: 0 <= i < |rest| ==> rest[i] in rest;
    }
  }

  lemma InsertDistinct(list: seq<nat>, slot: nat, x: nat)
    requires slot <= |list| && Distinct(list) && x !in list
    ensures Distinct(InsertAt(list, slot, x))
  {
    InsertAtIs(list, slot, x);
  }

  /** Inserting a key at its slot keeps a sorted list sorted. */
  lemma InsertSorted(keys: seq<nat>, key: nat, slot: nat)
    requires Sorted(keys) && Splits(keys, key, slot)
    ensures Sorted(InsertAt(keys, slot, key))
  {
    InsertAtIs(keys, slot, key);
  }

  /** keys[..lo] are at most `key` and keys[hi..] are at least `key`. */
  ghost predicate Between(keys: seq<nat>, key: nat, lo: nat, hi: nat) {
    && lo <= hi <= |keys|
    && (forall i :: 0 <= i < lo ==> keys[i] <= key)
    && (forall i :: hi <= i < |keys| ==> key <= keys[i])
  }

  /** A textbook binary search over keys[lo..hi]. */
  function SearchFrom(keys: seq<nat>, key: nat, lo: nat, hi: nat): (slot: nat)
    requires lo <= hi <= |keys|
    ensures lo <= slot <= hi
    ensures Sorted(keys) && Between(keys, key, lo, hi) ==> Splits(keys, key, slot)
    decreases hi - lo
  {
    if lo == hi then lo
    else
      var mid := lo + (hi - lo) / 2;
      if keys[mid] == key then mid
      else if keys[mid] < key then
        assert Sorted(keys) && Between(keys, key, lo, hi) ==> Between(keys, key, mid + 1, hi);
        SearchFrom(keys, key, mid + 1, hi)
      else
        assert Sorted(keys) && Between(keys, key, lo, hi) ==> Between(keys, key, lo, mid);
        SearchFrom(keys, key, lo, mid)
  }

  function BinarySearch(keys: seq<nat>, key: nat): (slot: nat) {
    SearchFrom(keys, key, 0, |keys|)
  }

  /** The searches the theorems range over include it. */
  lemma BinarySearchFindsSlot()
    ensures FindsSlot(BinarySearch)
  {
  }
}
