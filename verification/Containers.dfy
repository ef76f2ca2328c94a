/** The two bounded containers of the store: the array of hashes kept for one limbo level and
    the mempool. Both find by scanning and delete by moving the last element into the hole. */
module Containers {
  import opened ChainModel
  import opened Wrappers

  ghost predicate Distinct<T>(s: seq<T>) {
    forall i, j :: 0 <= i < j < |s| ==> s[i] != s[j]
  }

  function SwapRemove<T>(s: seq<T>, i: nat): seq<T>
    requires i < |s|
  {
    if i == |s| - 1 then s[..i] else s[..i] + [s[|s| - 1]] + s[i + 1..|s| - 1]
  }

  /** Moving the last element into the hole removes one occurrence and keeps all the others. */
  lemma SwapRemoveExact<T>(s: seq<T>, i: nat)
    requires i < |s|
    ensures multiset(SwapRemove(s, i)) == multiset(s) - multiset{s[i]}
  {
    if i == |s| - 1 {
      assert s == s[..i] + [s[i]];
    } else {
      assert s == s[..i] + [s[i]] + s[i + 1..|s| - 1] + [s[|s| - 1]];
    }
  }

  /** Among distinct elements it removes that element and nothing else. */
  lemma SwapRemoveDistinct<T>(s: seq<T>, i: nat)
    requires i < |s| && Distinct(s)
    ensures Distinct(SwapRemove(s, i))
    ensures forall x :: x in SwapRemove(s, i) <==> x in s && x != s[i]
  {
    var t := SwapRemove(s, i);
    forall a, b | 0 <= a < b < |t|
      ensures t[a] != t[b]
    {
      assert t[a] == s[if a == i then |s| - 1 else a];
      assert t[b] == s[if b == i then |s| - 1 else b];
    }
    forall x
      ensures x in t <==> x in s && x != s[i]
    {
      if x in s && x != s[i] {
        var k :| 0 <= k < |s| && s[k] == x;
        assert t[if k == |s| - 1 then i else k] == x;
      }
    }
  }

  /** Distinct elements of `bound`, one of which is missing, are fewer than `bound`. */
  lemma {:induction false} FewerThan<T>(s: seq<T>, bound: set<T>)
    requires Distinct(s) && forall x :: x in s ==> x in bound
    ensures |s| <= |bound|
    ensures (exists y :: y in bound && y !in s) ==> |s| < |bound|
  {
    if s != [] {
      var n := |s| - 1;
      FewerThan(s[..n], bound - {s[n]});
      if y :| y in bound && y !in s {
        assert y in bound - {s[n]} && y !in s[..n];
      }
    }
  }

  class HashArray {
    const data: array<Hash>
    var length: nat

    ghost predicate Valid()
      reads this, data
    {
      length <= data.Length && Distinct(data[..length])
    }

    ghost function Contents(): seq<Hash>
      reads this, data
      requires length <= data.Length
    {
      data[..length]
    }

    constructor (from: seq<Hash>, size: nat)
      requires |from| <= size && Distinct(from)
      ensures Valid() && fresh(data) && data.Length == size && Contents() == from
    {
      data := new Hash[size](i => if 0 <= i < |from| then from[i] else Hash(0));
      length := |from|;
    }

    /** 1 if the array is full or holds `x` already, otherwise 0 and `x` is appended. */
    method Add(x: Hash) returns (ret: int)
      requires Valid()
      modifies this`length, data
      ensures Valid()
      ensures ret == if old(length) >= data.Length || x in old(Contents()) then 1 else 0
      ensures Contents() == if ret == 0 then old(Contents()) + [x] else old(Contents())
    {
      if length >= data.Length {
        return 1;
      }
      for i := 0 to length
        invariant x !in data[..i]
        invariant Valid() && Contents() == old(Contents())
      {
        if data[i] == x {
          assert x == Contents()[i];
          return 1;
        }
      }
      data[length] := x;
      length := length + 1;
      assert Contents() == old(Contents()) + [x];
      return 0;
    }

    method Del(x: Hash)
      requires Valid()
      modifies this`length, data
      ensures Valid()
      ensures forall y :: y in Contents() <==> y in old(Contents()) && y != x
      ensures multiset(Contents()) == multiset(old(Contents())) - multiset{x}
    {
      ghost var was := Contents();
      for i := 0 to length
        invariant x !in was[..i]
      {
        if data[i] == x {
          RemoveAt(i);
          SwapRemoveExact(was, i);
          SwapRemoveDistinct(was, i);
          return;
        }
        assert was[..i + 1] == was[..i] + [was[i]];
      }
      assert was == was[..length];
      assert multiset(was)[x] == 0;
    }

    method RemoveAt(i: nat)
      requires Valid() && i < length
      modifies this`length, data
      ensures Valid() && Contents() == SwapRemove(old(Contents()), i)
    {
      ghost var was := Contents();
      if length > 1 && i != length - 1 {
        data[i] := data[length - 1];
      }
      length := length - 1;
      SwapRemoveDistinct(was, i);
      assert Contents() == SwapRemove(was, i);
    }
  }

  class Mempool {
    const r: Rules
    const txs: array<Tx>
    var count: nat

    ghost predicate Valid()
      reads this, txs
    {
      && count <= txs.Length
      && forall i, j :: 0 <= i < j < count ==> r.txHash(txs[i]) != r.txHash(txs[j])
    }

    ghost function Contents(): seq<Tx>
      reads this, txs
      requires count <= txs.Length
    {
      txs[..count]
    }

    ghost function Hashes(): set<Hash>
      reads this, txs
      requires count <= txs.Length
    {
      set t | t in Contents() :: r.txHash(t)
    }

    constructor (r: Rules, size: nat)
      ensures Valid() && fresh(txs) && this.r == r && txs.Length == size && Contents() == []
    {
      this.r := r;
      txs := new Tx[size](_ => Tx(0));
      count := 0;
    }

    method Exists(hash: Hash) returns (found: bool)
      requires Valid()
      ensures found <==> hash in Hashes()
    {
      for i := 0 to count
        invariant forall k :: 0 <= k < i ==> r.txHash(txs[k]) != hash
      {
        if r.txHash(txs[i]) == hash {
          assert Contents()[i] in Contents();
          return true;
        }
      }
      return false;
    }

    /** The number of pooled transactions is the number of their hashes. */
    lemma CountIsHashes()
      requires Valid()
      ensures |Hashes()| == count
    {
      HashCount(Contents());
    }

    lemma {:induction false} HashCount(s: seq<Tx>)
      requires forall i, j :: 0 <= i < j < |s| ==> r.txHash(s[i]) != r.txHash(s[j])
      ensures |set t | t in s :: r.txHash(t)| == |s|
    {
      if s != [] {
        var n := |s| - 1;
        HashCount(s[..n]);
        assert (set t | t in s :: r.txHash(t)) == (set t | t in s[..n] :: r.txHash(t)) + {r.txHash(s[n])};
      }
    }

    method Add(tx: Tx)
      requires Valid()
      requires r.txHash(tx) in Hashes() || count < txs.Length
      modifies this`count, txs
      ensures Valid()
      ensures Contents() == if r.txHash(tx) in old(Hashes()) then old(Contents()) else old(Contents()) + [tx]
      ensures Hashes() == old(Hashes()) + {r.txHash(tx)}
    {
      var found := Exists(r.txHash(tx));
      if found {
        return;
      }
      ghost var was := Contents();
      assert forall k :: 0 <= k < count ==> txs[k] == was[k] && was[k] in was;
      txs[count] := tx;
      count := count + 1;
      assert Contents() == was + [tx];
    }

    method Del(hash: Hash) returns (removed: Option<Tx>)
      requires Valid()
      modifies this`count, txs
      ensures Valid()
      ensures removed.Some? <==> hash in old(Hashes())
      ensures removed.Some? ==> r.txHash(removed.value) == hash
      ensures multiset(Contents()) ==
              multiset(old(Contents())) - (if removed.Some? then multiset{removed.value} else multiset{})
      ensures Hashes() == old(Hashes()) - {hash}
    {
      hide SwapRemove;
      ghost var was := Contents();
      assert multiset(was) - multiset{} == multiset(was);
      for i := 0 to count
        invariant forall k :: 0 <= k < i ==> r.txHash(txs[k]) != hash
      {
        if r.txHash(txs[i]) == hash {
          removed := Some(txs[i]);
          Removed(was, i);
          assert hash in Hashes() by { assert was[i] in was; }
          RemoveAt(i);
          return;
        }
      }
      return None;
    }

    method RemoveAt(i: nat)
      requires Valid() && i < count
      modifies this`count, txs
      ensures Valid() && Contents() == SwapRemove(old(Contents()), i)
    {
      ghost var was := Contents();
      count := count - 1;
      if count > 0 {
        txs[i] := txs[count];
      }
      assert Contents() == SwapRemove(was, i);
      forall a, b | 0 <= a < b < count
        ensures r.txHash(txs[a]) != r.txHash(txs[b])
      {
        assert txs[a] == was[if a == i then |was| - 1 else a];
        assert txs[b] == was[if b == i then |was| - 1 else b];
      }
    }

    /** What swap-removal does to the contents and their hashes. */
    lemma Removed(was: seq<Tx>, i: nat)
      requires i < |was|
      requires forall i, j :: 0 <= i < j < |was| ==> r.txHash(was[i]) != r.txHash(was[j])
      ensures multiset(SwapRemove(was, i)) == multiset(was) - multiset{was[i]}
      ensures (set t | t in SwapRemove(was, i) :: r.txHash(t)) == (set t | t in was :: r.txHash(t)) - {r.txHash(was[i])}
    {
      SwapRemoveExact(was, i);
      SwapRemoveDistinct(was, i);
      HashesWithout(was, SwapRemove(was, i), i);
    }

    lemma HashesWithout(s: seq<Tx>, s': seq<Tx>, i: nat)
      requires i < |s| && (forall x :: x in s' <==> x in s && x != s[i])
      requires forall i, j :: 0 <= i < j < |s| ==> r.txHash(s[i]) != r.txHash(s[j])
      ensures (set t | t in s' :: r.txHash(t)) == (set t | t in s :: r.txHash(t)) - {r.txHash(s[i])}
    {
    }
  }
}
