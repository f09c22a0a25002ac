/** The bitmaps that track free and used data blocks and inodes (`data_bitmap`, `inode_bitmap`).
    The allocators live in source files that are not part of this model; they are given
    here by their contracts, with a first-fit scan as body. */
module Bitmap {

  /** Number of set bits: what the status report sums for "Used". */
  function CountSet(s: seq<bool>): (n: nat)
    ensures n <= |s|
    ensures n == 0 <==> forall i :: 0 <= i < |s| ==> !s[i]
    ensures n == |s| <==> forall i :: 0 <= i < |s| ==> s[i]
  {
    if s == [] then 0
    else
      var init := s[..|s| - 1];
      assert forall i :: 0 <= i < |init| ==> init[i] == s[i];
      CountSet(init) + (if s[|s| - 1] then 1 else 0)
  }

  /** The count is the number of positions whose bit is set. */
  lemma {:induction false} CountSetIsSize(s: seq<bool>)
    ensures CountSet(s) == |set i | 0 <= i < |s| && s[i]|
  {
    if s != [] {
      var init := s[..|s| - 1];
      CountSetIsSize(init);
      var before, after := set i | 0 <= i < |init| && init[i], set i | 0 <= i < |s| && s[i];
      if s[|s| - 1] {
        assert after == before + {|s| - 1};
      } else {
        assert after == before;
      }
    }
  }

  /** Setting a clear bit raises the count by one; clearing a set bit lowers it by one. */
  lemma {:induction false} CountSetUpdate(s: seq<bool>, i: int, v: bool)
    requires 0 <= i < |s|
    ensures CountSet(s[i := v]) == CountSet(s) - (if s[i] then 1 else 0) + (if v then 1 else 0)
  {
    var t := s[i := v];
    var sInit, tInit := s[..|s| - 1], t[..|t| - 1];
    assert CountSet(s) == CountSet(sInit) + (if s[|s| - 1] then 1 else 0);
    assert CountSet(t) == CountSet(tInit) + (if t[|t| - 1] then 1 else 0);
    if i == |s| - 1 {
      assert tInit == sInit;
    } else {
      assert tInit == sInit[i := v];
      CountSetUpdate(sInit, i, v);
    }
  }

  /** allocate_*: returns the index of a clear bit and sets it, or -1 when no bit is clear. */
  method Allocate(a: array<bool>) returns (i: int)
    modifies a
    ensures i == -1 <==> forall j :: 0 <= j < a.Length ==> old(a[j])
    ensures i == -1 ==> unchanged(a)
    ensures i != -1 ==> 0 <= i < a.Length && !old(a[i]) && a[..] == old(a[..])[i := true]
    ensures i != -1 ==> CountSet(a[..]) == CountSet(old(a[..])) + 1
  {
    i := 0;
    while i < a.Length
      invariant 0 <= i <= a.Length
      invariant forall j :: 0 <= j < i ==> a[j]
    {
      if !a[i] {
        a[i] := true;
        CountSetUpdate(old(a[..]), i, true);
        return;
      }
      i := i + 1;
    }
    i := -1;
  }

  /** The counting loops of RSFS_stat: the number of set bits of a. */
  method Count(a: array<bool>) returns (n: int)
    ensures n == CountSet(a[..])
  {
    n := 0;
    for i := 0 to a.Length
      invariant n == CountSet(a[..i])
    {
      assert a[..i + 1][..i] == a[..i];
      n := n + if a[i] then 1 else 0;
    }
    assert a[..a.Length] == a[..];
  }

  /** free_*: clears the bit. */
  method Free(a: array<bool>, i: int)
    requires 0 <= i < a.Length
    modifies a
    ensures a[..] == old(a[..])[i := false]
    ensures CountSet(a[..]) == CountSet(old(a[..])) - (if old(a[i]) then 1 else 0)
  {
    a[i] := false;
    CountSetUpdate(old(a[..]), i, false);
  }
}
