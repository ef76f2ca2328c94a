/** The Merkle root: a short recursive definition, and the loop that reduces an array of hash
    buffers in place, writing each hash into a spare buffer and trading it for a slot. */
module Merkle {
  import opened Bytes
  import Sha256
  import TxCodec

  function Pair(l: seq<Byte>, r: seq<Byte>): (h: seq<Byte>)
    ensures |h| == 32
  {
    Sha256.Hash(l + r)
  }

  /** Hash a level in pairs; an odd last hash is paired with itself. */
  function NextLevel(level: seq<seq<Byte>>): (next: seq<seq<Byte>>)
    ensures |next| == (|level| + 1) / 2
  {
    if level == [] then []
    else if |level| == 1 then [Pair(level[0], level[0])]
    else [Pair(level[0], level[1])] + NextLevel(level[2..])
  }

  function Root(level: seq<seq<Byte>>): seq<Byte>
    requires level != []
    decreases |level|
  {
    if |level| == 1 then level[0] else Root(NextLevel(level))
  }

  lemma {:induction false} NextLevelAt(level: seq<seq<Byte>>, k: nat)
    requires 2 * k < |level|
    ensures NextLevel(level)[k]
            == Sha256.Hash(level[2 * k] + level[if 2 * k + 1 < |level| then 2 * k + 1 else 2 * k])
  {
    hide Sha256.Hash;
    if k > 0 {
      var rest := level[2..];
      NextLevelAt(rest, k - 1);
      assert NextLevel(level)[k] == NextLevel(rest)[k - 1];
      assert rest[2 * (k - 1)] == level[2 * k];
      assert 2 * k + 1 < |level| ==> rest[2 * (k - 1) + 1] == level[2 * k + 1];
    }
  }

  lemma RootIsAbove(level: seq<seq<Byte>>)
    requires |level| > 1
    ensures Root(level) == Root(NextLevel(level))
  {
  }

  lemma NextLevelSplits(l: seq<seq<Byte>>, r: seq<seq<Byte>>)
    requires |l| % 2 == 0
    ensures NextLevel(l + r) == NextLevel(l) + NextLevel(r)
  {
    hide Sha256.Hash, NextLevel;
    var both := l + r;
    forall k | 0 <= k < |NextLevel(both)|
      ensures NextLevel(both)[k] == (NextLevel(l) + NextLevel(r))[k]
    {
      NextLevelAt(both, k);
      if 2 * k < |l| {
        NextLevelAt(l, k);
      } else {
        NextLevelAt(r, k - |l| / 2);
      }
    }
  }

  function Pow2(d: nat): (n: nat)
    ensures n >= 1
  {
    if d == 0 then 1 else 2 * Pow2(d - 1)
  }

  /** The level `d` passes further up. */
  function Up(level: seq<seq<Byte>>, d: nat): seq<seq<Byte>>
    decreases d
  {
    if d == 0 then level else Up(NextLevel(level), d - 1)
  }

  /** The root has the root of the first 2^d leaves on its left, and what `d` passes make of the
      rest, at most as many, on its right. */
  lemma {:induction false} RootOfHalves(l: seq<seq<Byte>>, r: seq<seq<Byte>>, d: nat)
    requires |l| == Pow2(d) && 0 < |r| <= Pow2(d)
    ensures |Up(r, d)| == 1 && Root(l + r) == Sha256.Hash(Root(l) + Up(r, d)[0])
    ensures |r| == |l| ==> Up(r, d) == [Root(r)]
    decreases d
  {
    hide Sha256.Hash, NextLevel;
    if d == 0 {
      NextLevelAt(l + r, 0);
    } else {
      NextLevelSplits(l, r);
      RootOfHalves(NextLevel(l), NextLevel(r), d - 1);
    }
  }

  /** One leaf is its own root; two are hashed in their order; the third is hashed with itself. */
  lemma SmallRoots(a: seq<Byte>, b: seq<Byte>, c: seq<Byte>)
    ensures Root([a]) == a
    ensures Root([a, b]) == Sha256.Hash(a + b)
    ensures Root([a, b, c]) == Sha256.Hash(Sha256.Hash(a + b) + Sha256.Hash(c + c))
  {
    hide Sha256.Hash;
    assert NextLevel([a, b]) == [Pair(a, b)] + NextLevel([]);
    assert Pow2(1) == 2 && [a, b] + [c] == [a, b, c];
    RootOfHalves([a, b], [c], 1);
    assert Up([c], 1) == Up(NextLevel([c]), 0) == [Pair(c, c)];
  }

  // ---------- What the root commits to ----------

  ghost predicate AllDigests(level: seq<seq<Byte>>) {
    forall i :: 0 <= i < |level| ==> |level[i]| == SIZE_SHA256
  }

  ghost predicate Collision(x: seq<Byte>, y: seq<Byte>) {
    x != y && Sha256.Hash(x) == Sha256.Hash(y)
  }

  lemma NextLevelDigests(level: seq<seq<Byte>>)
    ensures AllDigests(NextLevel(level))
  {
    forall k | 0 <= k < |NextLevel(level)|
      ensures |NextLevel(level)[k]| == SIZE_SHA256
    {
      NextLevelAt(level, k);
    }
  }

  /** Equal next levels come from equal levels, or a collision shows up. */
  lemma LevelCommits(a: seq<seq<Byte>>, b: seq<seq<Byte>>) returns (x: seq<Byte>, y: seq<Byte>)
    requires |a| == |b| && AllDigests(a) && AllDigests(b) && NextLevel(a) == NextLevel(b)
    ensures a == b || Collision(x, y)
  {
    hide Sha256.Hash;
    x, y := [], [];
    for k := 0 to |a|
      invariant a[..k] == b[..k]
    {
      if a[k] != b[k] {
        var i := k / 2;
        var j := if 2 * i + 1 < |a| then 2 * i + 1 else 2 * i;
        NextLevelAt(a, i);
        NextLevelAt(b, i);
        x, y := a[2 * i] + a[j], b[2 * i] + b[j];
        assert x[..32] == a[2 * i] && x[32..] == a[j];
        assert y[..32] == b[2 * i] && y[32..] == b[j];
        return;
      }
      assert a[..k + 1] == a[..k] + [a[k]] && b[..k + 1] == b[..k] + [b[k]];
    }
    assert a[..|a|] == a && b[..|b|] == b;
  }

  /** For a fixed number of leaves the root commits to the ordered leaves: two lists with the
      same root are equal, or two different inputs with the same hash are at hand. */
  lemma {:induction false} RootCommits(a: seq<seq<Byte>>, b: seq<seq<Byte>>) returns (x: seq<Byte>, y: seq<Byte>)
    requires |a| == |b| > 0 && AllDigests(a) && AllDigests(b) && Root(a) == Root(b)
    ensures a == b || Collision(x, y)
    decreases |a|
  {
    hide Sha256.Hash;
    if |a| == 1 {
      x, y := [], [];
      assert a == [a[0]] && b == [b[0]];
    } else {
      NextLevelDigests(a);
      NextLevelDigests(b);
      x, y := RootCommits(NextLevel(a), NextLevel(b));
      if !Collision(x, y) {
        x, y := LevelCommits(a, b);
      }
    }
  }

  /** The number of leaves is not committed to: repeating the last leaf of an odd list of at
      least three leaves keeps the root. */
  lemma RepeatedLastLeaf(level: seq<seq<Byte>>)
    requires |level| % 2 == 1 && |level| >= 3
    ensures Root(level + [level[|level| - 1]]) == Root(level)
  {
    hide Sha256.Hash, NextLevel, Root;
    var front, last := level[..|level| - 1], level[|level| - 1];
    assert level == front + [last] && level + [last] == front + [last, last];
    NextLevelSplits(front, [last]);
    NextLevelSplits(front, [last, last]);
    NextLevelAt([last], 0);
    NextLevelAt([last, last], 0);
    assert NextLevel([last, last]) == NextLevel([last]);
    RootIsAbove(level);
    RootIsAbove(level + [last]);
  }

  // ---------- The cost of the reduction ----------

  /** Passes over the array, and pairs hashed in them, for `n` leaves. */
  function Passes(n: nat): nat {
    if n <= 1 then 0 else 1 + Passes((n + 1) / 2)
  }

  function PairHashes(n: nat): nat {
    if n <= 1 then 0 else (n + 1) / 2 + PairHashes((n + 1) / 2)
  }

  /** There are ceil(log2 n) passes, and at most n - 1 + ceil(log2 n) pairs are hashed. */
  lemma {:induction false} ReductionCost(n: nat)
    requires n >= 1
    ensures n <= Pow2(Passes(n)) && (n > 1 ==> Pow2(Passes(n) - 1) < n)
    ensures n - 1 <= PairHashes(n) <= n - 1 + Passes(n)
  {
    if n > 1 {
      var half := (n + 1) / 2;
      ReductionCost(half);
    }
  }

  // ---------- The array of buffers ----------

  /** Slots and spare are different buffers, each large enough for one hash. */
  ghost predicate Separate(tree: seq<array<Byte>>, spare: array<Byte>) {
    && (forall i, j :: 0 <= i < j < |tree| ==> tree[i] != tree[j])
    && (forall i :: 0 <= i < |tree| ==> tree[i] != spare && tree[i].Length == SIZE_SHA256)
    && spare.Length == SIZE_SHA256
  }

  lemma TradeKeepsAll(tree: seq<array<Byte>>, spare: array<Byte>, k: nat)
    requires k < |tree|
    ensures multiset(tree[k := spare]) + multiset{tree[k]} == multiset(tree) + multiset{spare}
  {
    assert tree == tree[..k] + [tree[k]] + tree[k + 1..];
    assert tree[k := spare] == tree[..k] + [spare] + tree[k + 1..];
  }

  /** The buffers are separate, and are those that make up `all`. */
  ghost predicate Tidy(all: multiset<array<Byte>>, tree: seq<array<Byte>>, spare: array<Byte>) {
    && Separate(tree, spare)
    && multiset(tree) + multiset{spare} == all
  }

  lemma TidyMembers(all: multiset<array<Byte>>, tree: seq<array<Byte>>, spare: array<Byte>)
    requires Tidy(all, tree, spare)
    ensures spare in all && forall i :: 0 <= i < |tree| ==> tree[i] in all
  {
    forall i | 0 <= i < |tree|
      ensures tree[i] in all
    {
      assert tree[i] in multiset(tree);
    }
  }

  lemma TidyAfter(all: multiset<array<Byte>>, tree: seq<array<Byte>>, spare: array<Byte>, k: nat)
    requires Tidy(all, tree, spare) && k < |tree|
    ensures Tidy(all, tree[k := spare], tree[k])
  {
    TradeKeepsAll(tree, spare, k);
  }

  /** Hash slots `i` and `j` into the spare buffer and trade it for slot `k`. */
  method HashInto(tree: array<array<Byte>>, spare: array<Byte>, i: nat, j: nat, k: nat,
                  ghost all: multiset<array<Byte>>)
    returns (spare': array<Byte>)
    requires i < tree.Length && j < tree.Length && k < tree.Length
    requires Tidy(all, tree[..], spare)
    modifies tree, spare
    ensures Tidy(all, tree[..], spare')
    ensures tree[k][..] == old(Sha256.Hash(tree[i][..] + tree[j][..]))
    ensures forall x :: 0 <= x < tree.Length && x != k ==> tree[x] == old(tree[x]) && tree[x][..] == old(tree[x][..])
  {
    hide Sha256.Hash;
    ghost var was := tree[..];
    TidyAfter(all, was, spare, k);
    var l, r := tree[i][..], tree[j][..];
    assert Join([l, r]) == l + r by {
      assert [l, r][1..] == [r] && Join([r]) == r + Join([]);
    }
    Sha256.HashPieces([l, r], spare);
    assert spare[..] == spare[..32];
    spare' := tree[k];
    tree[k] := spare;
    assert tree[..] == was[k := spare];
  }

  /** The first slots hold the pair hashes so far, the slots from `i` on the level as it was. */
  ghost predicate Halfway(tree: array<array<Byte>>, n: nat, k: nat, i: nat, before: seq<seq<Byte>>,
                          level: seq<seq<Byte>>)
    reads tree, set x | 0 <= x < tree.Length :: tree[x]
  {
    && k <= i && k <= n <= tree.Length && n == |before| && k <= |level|
    && (forall j :: 0 <= j < k ==> tree[j][..] == level[j])
    && forall j :: i <= j < n ==> tree[j][..] == before[j]
  }

  /** Hash slots `i` and `j` of a level into slot `k`. */
  method HashSlots(tree: array<array<Byte>>, spare: array<Byte>, n: nat, i: nat, j: nat, k: nat,
                   ghost all: multiset<array<Byte>>, ghost before: seq<seq<Byte>>)
    returns (spare': array<Byte>)
    requires Tidy(all, tree[..], spare) && Halfway(tree, n, k, i, before, NextLevel(before))
    requires i == 2 * k && j == (if i + 1 < n then i + 1 else i) && i < n
    modifies tree, set b | b in all
    ensures Tidy(all, tree[..], spare') && Halfway(tree, n, k + 1, j + 1, before, NextLevel(before))
  {
    hide NextLevel, Sha256.Hash, Tidy;
    NextLevelAt(before, k);
    TidyMembers(all, tree[..], spare);
    spare' := HashInto(tree, spare, i, j, k, all);
  }

  /** One pass: the `n` hashes in the first slots become their `(n + 1) / 2` pair hashes. */
  method Pass(tree: array<array<Byte>>, spare: array<Byte>, n: nat, ghost all: multiset<array<Byte>>)
    returns (spare': array<Byte>, m: nat, ghost hashed: nat)
    requires 1 < n <= tree.Length && Tidy(all, tree[..], spare)
    modifies tree, set b | b in all
    ensures m == hashed == (n + 1) / 2
    ensures Tidy(all, tree[..], spare')
    ensures Contents(tree, m) == NextLevel(old(Contents(tree, n)))
  {
    hide NextLevel, Pair, Tidy, Contents;
    ghost var before := Contents(tree, n);
    spare' := spare;
    var remainder := n % 2;
    var pairCount := (n - remainder) / 2;
    var k := 0;
    var i := 0;
    hashed := 0;
    while k < pairCount
      invariant 0 <= k <= pairCount && i == 2 * k && hashed == k
      invariant Tidy(all, tree[..], spare')
      invariant Halfway(tree, n, k, i, before, NextLevel(before))
    {
      hide Halfway;
      spare' := HashSlots(tree, spare', n, i, i + 1, k, all, before);
      hashed := hashed + 1;
      k := k + 1;
      i := i + 2;
    }
    if remainder == 1 {
      spare' := HashSlots(tree, spare', n, n - 1, n - 1, k, all, before);
      hashed := hashed + 1;
      k := k + 1;
    }
    m := k;
  }

  ghost function Contents(tree: array<array<Byte>>, n: nat): (level: seq<seq<Byte>>)
    reads tree, set i | 0 <= i < tree.Length :: tree[i]
    requires n <= tree.Length
    ensures |level| == n && forall i :: 0 <= i < n ==> level[i] == tree[i][..]
  {
    if n == 0 then [] else Contents(tree, n - 1) + [tree[n - 1][..]]
  }

  /** Passes until one hash is left. The slots and the spare buffer end up as a permutation of
      the buffers they were, so freeing them all frees each buffer once. */
  method Reduce(tree: array<array<Byte>>, spare: array<Byte>, ghost all: multiset<array<Byte>>)
    returns (spare': array<Byte>, ghost passes: nat, ghost hashes: nat)
    requires tree.Length >= 1 && Tidy(all, tree[..], spare)
    modifies tree, set b | b in all
    ensures Tidy(all, tree[..], spare')
    ensures tree[0][..] == old(Root(Contents(tree, tree.Length)))
    ensures passes == Passes(tree.Length) && hashes == PairHashes(tree.Length)
  {
    hide NextLevel, Tidy;
    ghost var root := Root(Contents(tree, tree.Length));
    var leafCount := tree.Length;
    spare', passes, hashes := spare, 0, 0;
    while leafCount > 1
      invariant 1 <= leafCount <= tree.Length
      invariant Tidy(all, tree[..], spare')
      invariant Root(Contents(tree, leafCount)) == root
      invariant passes + Passes(leafCount) == Passes(tree.Length)
      invariant hashes + PairHashes(leafCount) == PairHashes(tree.Length)
    {
      ghost var hashed;
      spare', leafCount, hashed := Pass(tree, spare', leafCount, all);
      passes, hashes := passes + 1, hashes + hashed;
    }
  }

  function Leaves(txs: seq<seq<Byte>>): (level: seq<seq<Byte>>)
    ensures |level| == |txs|
  {
    seq(|txs|, i requires 0 <= i < |txs| => Sha256.Hash(txs[i]))
  }

  lemma {:induction false} RootIsDigest(level: seq<seq<Byte>>)
    requires level != [] && AllDigests(level)
    ensures |Root(level)| == SIZE_SHA256
    decreases |level|
  {
    hide Pair;
    if |level| > 1 {
      NextLevelDigests(level);
      RootIsDigest(NextLevel(level));
    }
  }

  /** The Merkle root of the first `n` transactions of a body. */
  function BodyRoot(body: seq<Byte>, n: nat): (root: seq<Byte>)
    requires n >= 1 && TxCodec.Walk(body, n).Some?
    ensures |root| == SIZE_SHA256
  {
    var level := Leaves(TxCodec.Walk(body, n).value);
    RootIsDigest(level);
    Root(level)
  }

  /** The leaves are the hashes of the transactions, in the order of the body. */
  lemma SmallBodies(a: seq<Byte>, b: seq<Byte>)
    requires TxCodec.IsTx(a) && TxCodec.IsTx(b)
    ensures TxCodec.Walk(a, 1).Some? && BodyRoot(a, 1) == Sha256.Hash(a)
    ensures TxCodec.Walk(a + b, 2).Some? && BodyRoot(a + b, 2) == Sha256.Hash(Sha256.Hash(a) + Sha256.Hash(b))
  {
    hide Sha256.Hash, TxCodec.IsTx, Root, TxCodec.Walk;
    assert Join([a]) == a && Join([a, b]) == a + b by {
      assert [a, b][1..] == [b] && Join([a]) == a + Join([]) && Join([b]) == b + Join([]);
    }
    TxCodec.WalkFindsAll([a], []);
    TxCodec.WalkFindsAll([a, b], []);
    assert a + [] == a && (a + b) + [] == a + b;
    SmallRoots(Sha256.Hash(a), Sha256.Hash(b), []);
    assert Leaves([a]) == [Sha256.Hash(a)];
    assert Leaves([a, b]) == [Sha256.Hash(a), Sha256.Hash(b)];
  }

  /** A separate buffer for every leaf, and the spare. */
  method Allocate(count: nat) returns (tree: array<array<Byte>>, spare: array<Byte>)
    ensures fresh(tree) && tree.Length == count
    ensures fresh(spare) && forall i :: 0 <= i < count ==> fresh(tree[i])
    ensures Separate(tree[..], spare)
  {
    spare := new Byte[SIZE_SHA256](_ => 0);
    tree := new array<Byte>[count](_ => spare);
    for i := 0 to count
      invariant fresh(tree) && fresh(spare) && spare.Length == SIZE_SHA256
      invariant forall k :: 0 <= k < i ==> fresh(tree[k]) && tree[k] != spare && tree[k].Length == SIZE_SHA256
      invariant forall j, k :: 0 <= j < k < i ==> tree[j] != tree[k]
    {
      tree[i] := new Byte[SIZE_SHA256](_ => 0);
    }
  }

  /** The hash of each transaction of a body into its slot. */
  method HashLeaves(body: seq<Byte>, tree: array<array<Byte>>, spare: array<Byte>)
    requires TxCodec.Walk(body, tree.Length).Some? && |body| < TWO32
    requires Separate(tree[..], spare)
    modifies set i | 0 <= i < tree.Length :: tree[i]
    ensures Contents(tree, tree.Length) == Leaves(TxCodec.Walk(body, tree.Length).value)
  {
    hide Sha256.Hash, TxCodec.TxSize, TxCodec.IsTx;
    ghost var txs := TxCodec.Walk(body, tree.Length).value;
    TxCodec.WalkIsPrefix(body, tree.Length);
    var cursor := 0;
    for i := 0 to tree.Length
      invariant cursor == |Join(txs[..i])|
      invariant forall k :: 0 <= k < i ==> tree[k][..] == Sha256.Hash(txs[k])
    {
      TxCodec.WalkStep(body, tree.Length, i);
      var size := TxCodec.TxSize(body[cursor..]);
      var tx := body[cursor..][..size];
      TxCodec.TxComputeHash(tx, tree[i]);
      cursor := cursor + size;
    }
  }

  /** The Merkle root of the transactions of a body into `out`. */
  method ComputeMerkleRoot(body: seq<Byte>, txCount: nat, out: array<Byte>, pos: nat)
    requires txCount >= 1 && TxCodec.Walk(body, txCount).Some? && |body| < TWO32
    requires pos + SIZE_SHA256 <= out.Length
    modifies out
    ensures out[..] == Patch(old(out[..]), pos, BodyRoot(body, txCount))
  {
    hide Root, Leaves, TxCodec.Walk;
    var tree, buffer := Allocate(txCount);
    HashLeaves(body, tree, buffer);
    ghost var all := multiset(tree[..]) + multiset{buffer};
    assert forall b :: b in all ==> b == buffer || b in tree[..];
    ghost var passes, hashes;
    buffer, passes, hashes := Reduce(tree, buffer, all);
    CopyIn(tree[0][..], out, pos);
  }
}
