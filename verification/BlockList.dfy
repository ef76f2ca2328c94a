/** The reply to a getblocks message: hashes of the chain above a given block, and how asking
    again from the last one received walks a peer up to the tip. */
module BlockList {
  import opened Bytes
  import opened ChainModel
  import opened StoreLemmas
  import opened Store

  const MAX_LISTED: nat := 255

  /** The chain above height `h`, as far as asked for and as far as it goes. */
  function Batch(c: seq<Hash>, h: nat, req: nat): (list: seq<Hash>)
    ensures |list| <= req
  {
    if h + 1 >= |c| then []
    else if h + 1 + req < |c| then c[h + 1..h + 1 + req]
    else c[h + 1..]
  }

  /** The list begins right above the start and is as long as asked for or as the chain allows; a
      start block at the tip or above it, as one in limbo may be, has nothing listed. */
  lemma BatchExact(c: seq<Hash>, h: nat, req: nat)
    ensures h + 1 >= |c| ==> Batch(c, h, req) == []
    ensures h + 1 < |c| ==> |Batch(c, h, req)| == if req < |c| - 1 - h then req else |c| - 1 - h
    ensures forall i :: 0 <= i < |Batch(c, h, req)| ==> Batch(c, h, req)[i] == c[h + 1 + i]
  {
  }

  /** What is listed with 32-bit heights: from a start block near the highest height the bound
      wraps, and from the very highest the list starts over at genesis. */
  function Listed(c: seq<Hash>, h: nat, req: nat): seq<Hash> {
    if h + 1 == TWO32 then c[..if req <= |c| then req else |c|]
    else if h + 1 + req >= TWO32 then []
    else Batch(c, h, req)
  }

  /** The list is the chain above the start exactly if nothing is asked for, no bound wraps, or
      the chain does not get there. */
  lemma ListedIsBatchIff(c: seq<Hash>, h: nat, req: nat)
    requires h < TWO32 && |c| < TWO32
    ensures Listed(c, h, req) == Batch(c, h, req) <==>
            req == 0 || h + 1 + req < TWO32 || |c| == 0 || (h + 1 < TWO32 && |c| <= h + 1)
  {
    if req > 0 && |c| > 0 && h + 1 == TWO32 {
      assert |Listed(c, h, req)| > 0 && |Batch(c, h, req)| == 0;
    } else if req > 0 && h + 1 + req >= TWO32 && |c| > h + 1 {
      assert |Batch(c, h, req)| > 0;
    }
  }

  /** The smaller of two bounds that the source computes with wrapping unsigned arithmetic: as
      far as asked for and as far as the chain goes, and before `index` if the former wraps. */
  method ListEnd(index: Uint, top: Uint, req: Byte) returns (end: Uint)
    ensures end as int <= index as int + req
    ensures index as int + MAX_LISTED < TWO32 ==>
              end as int == if index <= top && top <= index as int + req then top else index as int + req
    ensures index < top && index as int + req < TWO32 ==>
              end as int == if top <= index as int + req then top else index as int + req
    ensures index as int + req >= TWO32 ==> end as int <= index as int + req - TWO32 < index as int
  {
    var max: Uint := top;
    var reqMax: Uint := (index as int + req) % TWO32;
    if (max as int - index) % TWO32 > MAX_LISTED {
      max := (index as int + MAX_LISTED) % TWO32;
    }
    if reqMax < max {
      max := reqMax;
    }
    end := max;
  }

  /** The entries of a chain from height `index` up to `max`. */
  function Between(c: seq<Hash>, index: nat, max: nat): seq<Hash> {
    var top := if max <= |c| then max else |c|;
    if index <= top then c[index..top] else []
  }

  lemma BetweenIsListed(c: seq<Hash>, h: nat, req: Byte, index: Uint, end: Uint)
    requires h < TWO32 && |c| < TWO32 && index == (h + 1) % TWO32
    requires end as int <= index as int + req
    requires index < |c| && index as int + req < TWO32 ==>
               end as int == if |c| <= index as int + req then |c| else index as int + req
    requires index as int + req >= TWO32 ==> end as int <= index as int + req - TWO32 < index as int
    ensures Between(c, index, end) == Listed(c, h, req) && |Between(c, index, end)| <= req
  {
    if h + 1 == TWO32 {
      assert index == 0;
    } else {
      assert index == h + 1;
      if index < |c| && index as int + req < TWO32 {
        assert index <= end as int <= |c|;
      } else {
        assert Between(c, index, end) == [];
      }
    }
  }

  /** Copy chain entries from height `index` up to `max`, or to where the chain ends. */
  method CopyEntries(db: Dbs, index: nat, max: nat, dest: array<Hash>, ghost c: seq<Hash>) returns (count: nat)
    requires ChainRep(db.chain, c) && max <= index + dest.Length
    modifies dest
    ensures count <= dest.Length && dest[..count] == Between(c, index, max)
  {
    ghost var above := if index <= |c| then c[index..] else [];
    count := 0;
    var i := index;
    while i < max
      invariant i == index + count && count <= |above| && (count == 0 || i <= max)
      invariant dest[..count] == above[..count]
    {
      var got := db.ChainGet(i);
      if got.None? {
        return;
      }
      assert got.value == above[count];
      dest[count] := got.value;
      assert dest[..count + 1] == dest[..count] + [got.value];
      count := count + 1;
      i := i + 1;
    }
  }

  /** Chain hashes from the one after `start` into `dest`, as many as asked for. */
  method BuildBlockList(db: Dbs, start: Hash, req: Byte, dest: array<Hash>) returns (count: nat)
    requires db.Valid() && dest.Length >= MAX_LISTED
    requires |db.view.chain| < TWO32
    requires start in db.blocks ==> db.blocks[start].height < TWO32
    modifies dest
    ensures count <= MAX_LISTED
    ensures dest[..count] == if start in db.blocks then Listed(db.view.chain, db.blocks[start].height, req) else []
  {
    hide Inv, Hashed, LimboRep, ChainRep, Listed, Between;
    if start !in db.blocks {
      return 0;
    }
    var index: Uint := (db.blocks[start].height + 1) % TWO32;
    var top := db.ChainHeight();
    var max := ListEnd(index, top + 1, req);
    BetweenIsListed(db.view.chain, db.blocks[start].height, req, index, max);
    count := CopyEntries(db, index, max, dest, db.view.chain);
  }

  /** Of the hashes a peer announces, those not stored, in their order, at most 255 of them. */
  function NotStored(blocks: Blocks, list: seq<Hash>): (missing: seq<Hash>)
    ensures |missing| <= |list|
  {
    if list == [] then []
    else
      var missing := NotStored(blocks, list[..|list| - 1]);
      var last := list[|list| - 1];
      if last in blocks then missing else missing + [last]
  }

  /** An announced hash is asked for exactly if it is not stored. */
  lemma {:induction false} NotStoredExact(blocks: Blocks, list: seq<Hash>, h: Hash)
    ensures h in NotStored(blocks, list) <==> h in list && h !in blocks
  {
    if list != [] {
      NotStoredExact(blocks, list[..|list| - 1], h);
      assert list == list[..|list| - 1] + [list[|list| - 1]];
    }
  }

  method BuildMissingBlocksList(db: Dbs, list: seq<Hash>, dest: array<Hash>) returns (missing: nat)
    requires |list| <= MAX_LISTED <= dest.Length
    modifies dest
    ensures missing <= |list| && dest[..missing] == NotStored(db.blocks, list)
  {
    missing := 0;
    for i := 0 to |list|
      invariant missing <= i && dest[..missing] == NotStored(db.blocks, list[..i])
    {
      assert list[..i + 1][..i] == list[..i];
      if list[i] !in db.blocks {
        dest[missing] := list[i];
        assert dest[..missing + 1] == dest[..missing] + [list[i]];
        missing := missing + 1;
      }
      if missing == MAX_LISTED {
        assert i + 1 == |list|;
        break;
      }
    }
    assert list[..|list|] == list;
  }

  // ---------- Fetching a chain batch by batch ----------

  /** The list continues from the start block exactly if the start block is on the chain. */
  lemma BatchContinuesIff(r: Rules, s: View, start: Hash, req: nat)
    requires Inv(r, s) && start in s.blocks && Batch(s.chain, s.blocks[start].height, req) != []
    ensures var first := Batch(s.chain, s.blocks[start].height, req)[0];
            s.blocks[first].prev == start <==> OnChain(s, start)
  {
    var h := s.blocks[start].height;
    assert Batch(s.chain, h, req)[0] == s.chain[h + 1];
    assert Follows(r, s.blocks, s.chain, h + 1);
  }

  /** Each listed block follows from the one listed before it. */
  lemma BatchLinked(r: Rules, s: View, h: nat, req: nat, i: nat)
    requires Inv(r, s) && 0 < i < |Batch(s.chain, h, req)|
    ensures var list := Batch(s.chain, h, req);
            Linked(r, s.blocks, list[i]) && s.blocks[list[i]].prev == list[i - 1]
  {
    assert Follows(r, s.blocks, s.chain, h + 1 + i);
  }

  /** The last hash of a list is that of the chain block as far above the start as the list is
      long, so it can start the next request. */
  lemma NextStart(r: Rules, s: View, start: Hash, req: nat)
    requires Inv(r, s) && OnChain(s, start) && |s.chain| < TWO32
    requires Listed(s.chain, s.blocks[start].height, req) != []
    ensures var h, list := s.blocks[start].height, Listed(s.chain, s.blocks[start].height, req);
            var last := list[|list| - 1];
            && h + 1 + req < TWO32
            && OnChain(s, last) && s.blocks[last].height == h + |list|
            && |list| == (if h + 1 + req < |s.chain| then req else |s.chain| - 1 - h)
            && s.chain[h + 1..] == list + s.chain[h + |list| + 1..]
  {
    hide Follows, Hashed;
  }

  /** What comes back when a peer asks from `start` and then always from the last hash received,
      until nothing comes. */
  ghost function Fetched(r: Rules, s: View, start: Hash, req: nat): seq<Hash>
    requires Inv(r, s) && OnChain(s, start) && |s.chain| < TWO32
    decreases |s.chain| - s.blocks[start].height
  {
    var list := Listed(s.chain, s.blocks[start].height, req);
    if list == [] then []
    else
      NextStart(r, s, start, req);
      list + Fetched(r, s, list[|list| - 1], req)
  }

  /** The height at which the last request starts that is needed to get to the tip. */
  function LastStart(top: nat, h: nat, req: nat): (last: nat)
    requires h < top && req > 0
    ensures h <= last < top
    decreases top - h
  {
    if top <= h + req then h else LastStart(top, h + req, req)
  }

  lemma NothingListedIff(s: View, h: nat, req: nat)
    requires h < |s.chain| < TWO32 && req > 0
    ensures Listed(s.chain, h, req) == [] <==> h == Top(s) || h + 1 + req >= TWO32
  {
  }

  /** That brings the whole chain above the start, each block once and in order, exactly if the
      end asked for by the last request needed does not wrap. */
  lemma {:induction false} FetchReachesTipIff(r: Rules, s: View, start: Hash, req: nat)
    requires Inv(r, s) && OnChain(s, start) && |s.chain| < TWO32 && req > 0
    ensures var h := s.blocks[start].height;
            Fetched(r, s, start, req) == s.chain[h + 1..] <==>
            h == Top(s) || LastStart(Top(s), h, req) + 1 + req < TWO32
    decreases |s.chain| - s.blocks[start].height
  {
    hide Listed, Inv;
    var h := s.blocks[start].height;
    var list := Listed(s.chain, h, req);
    NothingListedIff(s, h, req);
    if list != [] {
      NextStart(r, s, start, req);
      var last := list[|list| - 1];
      FetchReachesTipIff(r, s, last, req);
      SamePrefix(list, Fetched(r, s, last, req), s.chain[h + |list| + 1..]);
    }
  }

  lemma SamePrefix(a: seq<Hash>, b: seq<Hash>, c: seq<Hash>)
    ensures a + b == a + c <==> b == c
  {
    assert (a + b)[|a|..] == b && (a + c)[|a|..] == c;
  }
}
