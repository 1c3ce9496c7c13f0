/** The slot list behind `utils.unorderedList`: a sequence of slots, each
    holding a live item or the `REMOVED_ITEM` tombstone. Removal tombstones
    a slot in place, so indices held by other items stay valid. */
module Slots {
  import opened Optional

  datatype Slot<T> = Removed | Live(item: T)

  /** Slot `i` may receive a new item: it is a tombstone, or one past the end. */
  predicate FreeSlot<T>(s: seq<Slot<T>>, i: nat) {
    i <= |s| && (i < |s| ==> s[i].Removed?)
  }

  /** The index `add` picks. The container's reuse policy is not modelled:
      all that is known of the choice is that the slot is free. */
  ghost function Alloc<T>(s: seq<Slot<T>>): (i: nat)
    ensures FreeSlot(s, i)
  {
    assert FreeSlot(s, |s|);
    var i :| FreeSlot(s, i); i
  }

  /** `add`: stores `x` in the free slot `i`, growing the list when `i` is its end. */
  function Place<T>(s: seq<Slot<T>>, i: nat, x: T): (r: seq<Slot<T>>)
    requires FreeSlot(s, i)
    ensures |r| == if i == |s| then |s| + 1 else |s|
    ensures r[i] == Live(x)
    ensures forall j :: 0 <= j < |s| && j != i ==> r[j] == s[j]
  {
    if i == |s| then s + [Live(x)] else s[i := Live(x)]
  }

  /** `remove(i)`: tombstones slot `i`; no other slot moves or changes. */
  function Remove<T>(s: seq<Slot<T>>, i: nat): (r: seq<Slot<T>>)
    requires i < |s|
    ensures |r| == |s|
    ensures r[i] == Removed
    ensures forall j :: 0 <= j < |s| && j != i ==> r[j] == s[j]
  {
    s[i := Removed]
  }

  /** Writes a changed item back into its slot: the engine mutates the stored
      object itself, which a value model expresses as a write-back. */
  function Write<T>(s: seq<Slot<T>>, i: nat, x: T): (r: seq<Slot<T>>)
    requires i < |s|
    ensures |r| == |s|
    ensures r[i] == Live(x)
    ensures forall j :: 0 <= j < |s| && j != i ==> r[j] == s[j]
  {
    s[i := Live(x)]
  }

  /** Slot `i` holds no live item (it is a tombstone or beyond the end). */
  predicate NotLive<T>(s: seq<Slot<T>>, i: nat) {
    i >= |s| || s[i].Removed?
  }

  /** The indices of the live slots. */
  function LiveIndices<T>(s: seq<Slot<T>>): set<nat> {
    set i: nat | i < |s| && s[i].Live?
  }

  /** Every item live in `a` is still live, at the same index, in `b`. */
  predicate KeepsLive<T(==)>(a: seq<Slot<T>>, b: seq<Slot<T>>) {
    |a| <= |b| && forall j :: 0 <= j < |a| && a[j].Live? ==> b[j] == a[j]
  }

  lemma PlaceAddsOneLiveIndex<T>(s: seq<Slot<T>>, i: nat, x: T)
    requires FreeSlot(s, i)
    ensures LiveIndices(Place(s, i, x)) == LiveIndices(s) + {i}
    ensures i !in LiveIndices(s)
  {
  }

  lemma RemoveDropsOneLiveIndex<T>(s: seq<Slot<T>>, i: nat)
    requires i < |s|
    ensures LiveIndices(Remove(s, i)) == LiveIndices(s) - {i}
  {
  }

  /** Overwriting a live slot leaves the set of live slots as it was. */
  lemma WriteKeepsLiveIndices<T>(s: seq<Slot<T>>, i: nat, x: T)
    requires i < |s| && s[i].Live?
    ensures LiveIndices(Write(s, i, x)) == LiveIndices(s)
  {
  }

  lemma PlaceKeepsLive<T>(s: seq<Slot<T>>, i: nat, x: T)
    requires FreeSlot(s, i)
    ensures KeepsLive(s, Place(s, i, x))
  {
  }

  /** The first live slot at or after `i` whose item `accept`s, scanning in
      index order. */
  function FirstFrom<T>(s: seq<Slot<T>>, accept: T -> bool, i: nat): (r: Option<nat>)
    requires i <= |s|
    ensures r.Some? ==> i <= r.value < |s| && s[r.value].Live? && accept(s[r.value].item)
    ensures r.Some? ==> forall j :: i <= j < r.value && s[j].Live? ==> !accept(s[j].item)
    ensures r.None? ==> forall j :: i <= j < |s| && s[j].Live? ==> !accept(s[j].item)
    decreases |s| - i
  {
    if i == |s| then None
    else if s[i].Live? && accept(s[i].item) then Some(i)
    else FirstFrom(s, accept, i + 1)
  }

  /** The first live slot, in index order, whose item `accept`s: a hit has
      no accepted live slot before it, and `None` means there is none at all. */
  function FirstWhere<T>(s: seq<Slot<T>>, accept: T -> bool): (r: Option<nat>)
    ensures r.Some? ==> r.value < |s| && s[r.value].Live? && accept(s[r.value].item)
    ensures r.Some? ==> forall j :: 0 <= j < r.value && s[j].Live? ==> !accept(s[j].item)
    ensures r.None? ==> forall j :: 0 <= j < |s| && s[j].Live? ==> !accept(s[j].item)
  {
    FirstFrom(s, accept, 0)
  }

  /** The indices, from `i` on and in increasing order, of the live slots
      whose item `accept`s. */
  function IndicesFrom<T>(s: seq<Slot<T>>, accept: T -> bool, i: nat): (r: seq<nat>)
    requires i <= |s|
    ensures forall k :: 0 <= k < |r| ==> i <= r[k]
    ensures forall k, m :: 0 <= k < m < |r| ==> r[k] < r[m]
    ensures forall j :: j in r <==> i <= j < |s| && s[j].Live? && accept(s[j].item)
    decreases |s| - i
  {
    if i == |s| then []
    else if s[i].Live? && accept(s[i].item) then [i] + IndicesFrom(s, accept, i + 1)
    else IndicesFrom(s, accept, i + 1)
  }

  /** The first match is the head of the list of all matches, and there is
      none exactly when that list is empty. */
  lemma {:induction false} FirstIsHeadOfIndices<T>(s: seq<Slot<T>>, accept: T -> bool, i: nat)
    requires i <= |s|
    ensures FirstFrom(s, accept, i).None? <==> IndicesFrom(s, accept, i) == []
    ensures FirstFrom(s, accept, i).Some? ==> FirstFrom(s, accept, i).value == IndicesFrom(s, accept, i)[0]
    decreases |s| - i
  {
    if i < |s| && !(s[i].Live? && accept(s[i].item)) {
      FirstIsHeadOfIndices(s, accept, i + 1);
    }
  }
}
