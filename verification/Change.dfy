/** What change a transaction pays, said without the loop that writes it, and when outputs and
    change are worth exactly what the inputs bring. */
module Change {
  import opened Wrappers
  import opened Ledger

  /** Input `i` is worth more than the output it funds. */
  predicate Gives(book: Book, ins: seq<In>, outs: seq<Out>, i: nat)
    requires Resolved(book, ins)
  {
    i < |ins| && 0 <= ins[i].outI < |outs| && Spent(book, ins[i]).value.amount > outs[ins[i].outI].amount
  }

  function Difference(book: Book, ins: seq<In>, outs: seq<Out>, i: nat): int
    requires Resolved(book, ins) && Gives(book, ins, outs, i)
  {
    Spent(book, ins[i]).value.amount - outs[ins[i].outI].amount
  }

  function From(book: Book, ins: seq<In>, i: nat): Id
    requires Resolved(book, ins) && i < |ins|
  {
    Spent(book, ins[i]).value.address
  }

  /** Outputs are looked at in order, and for each output the inputs in order. */
  predicate Precedes(ins: seq<In>, i: nat, j: nat)
    requires i < |ins| && j < |ins|
  {
    ins[i].outI < ins[j].outI || (ins[i].outI == ins[j].outI && i < j)
  }

  /** Input `i` has been looked at before the first `n` inputs for output `o` are through. */
  predicate Done(ins: seq<In>, i: nat, o: nat, n: nat)
    requires i < |ins|
  {
    ins[i].outI < o || (ins[i].outI == o && i < n)
  }

  /** The last of the inputs done that gives change to address `a`. */
  ghost predicate LastDone(book: Book, ins: seq<In>, outs: seq<Out>, o: nat, n: nat, a: Id, i: nat)
    requires Resolved(book, ins)
  {
    && Gives(book, ins, outs, i) && From(book, ins, i) == a && Done(ins, i, o, n)
    && forall j :: Gives(book, ins, outs, j) && From(book, ins, j) == a && Done(ins, j, o, n) ==> !Precedes(ins, i, j)
  }

  /** The last input of all that gives change to address `a`. */
  ghost predicate LastFor(book: Book, ins: seq<In>, outs: seq<Out>, a: Id, i: nat)
    requires Resolved(book, ins)
  {
    && Gives(book, ins, outs, i) && From(book, ins, i) == a
    && forall j :: Gives(book, ins, outs, j) && From(book, ins, j) == a ==> !Precedes(ins, i, j)
  }

  predicate DistinctKeys(d: Change) {
    d == [] || (d[0].0 !in Addresses(d[1..]) && DistinctKeys(d[1..]))
  }

  lemma {:induction false} EntryHasAddress(d: Change, a: Id, w: int)
    requires (a, w) in d
    ensures a in Addresses(d)
  {
    if d[0] != (a, w) {
      EntryHasAddress(d[1..], a, w);
    }
  }

  lemma {:induction false} PutEntry(d: Change, k: Id, v: int, a: Id, w: int)
    requires DistinctKeys(d)
    ensures (a, w) in Put(d, k, v) <==> if a == k then w == v else (a, w) in d
  {
    if d != [] {
      assert d == [d[0]] + d[1..];
      if d[0].0 != k {
        PutEntry(d[1..], k, v, a, w);
      } else if (a, w) in d[1..] {
        EntryHasAddress(d[1..], a, w);
      }
    }
  }

  lemma {:induction false} PutKeys(d: Change, k: Id, v: int)
    ensures Addresses(Put(d, k, v)) == Addresses(d) + {k}
    ensures DistinctKeys(d) ==> DistinctKeys(Put(d, k, v))
  {
    if d != [] && d[0].0 != k {
      PutKeys(d[1..], k, v);
      assert Put(d, k, v)[1..] == Put(d[1..], k, v);
    } else if d != [] {
      assert Put(d, k, v)[1..] == d[1..];
    } else {
      assert [(k, v)][1..] == [];
    }
  }

  /** The entries written so far: for each address, the difference of the last input done. */
  ghost predicate Written(book: Book, ins: seq<In>, outs: seq<Out>, o: nat, n: nat, d: Change)
    requires Resolved(book, ins)
  {
    && DistinctKeys(d)
    && forall a: Id, v: int :: (a, v) in d <==>
         exists i :: LastDone(book, ins, outs, o, n, a, i) && v == Difference(book, ins, outs, i)
  }

  /** Looking at input `n` for output `o` makes it the last done for its address, if it gives. */
  lemma NextDone(book: Book, ins: seq<In>, outs: seq<Out>, o: nat, n: nat, a: Id, i: nat)
    requires Resolved(book, ins) && o < |outs| && n < |ins|
    ensures var now := Gives(book, ins, outs, n) && ins[n].outI == o && From(book, ins, n) == a;
            LastDone(book, ins, outs, o, n + 1, a, i) <==> if now then i == n else LastDone(book, ins, outs, o, n, a, i)
  {
    hide Spent;
    forall j | Gives(book, ins, outs, j) && From(book, ins, j) == a
      ensures Done(ins, j, o, n + 1) <==> Done(ins, j, o, n) || (j == n && ins[n].outI == o)
      ensures Done(ins, j, o, n + 1) && ins[n].outI == o ==> !Precedes(ins, n, j)
      ensures Done(ins, j, o, n) && ins[n].outI == o ==> Precedes(ins, j, n)
    {
    }
  }

  lemma EntryNow(book: Book, ins: seq<In>, outs: seq<Out>, o: nat, n: nat, d: Change, a: Id, v: int)
    requires Resolved(book, ins) && o < |outs| && n < |ins| && Written(book, ins, outs, o, n, d)
    requires Gives(book, ins, outs, n) && ins[n].outI == o
    ensures (a, v) in Put(d, From(book, ins, n), Difference(book, ins, outs, n)) <==>
            exists i :: LastDone(book, ins, outs, o, n + 1, a, i) && v == Difference(book, ins, outs, i)
  {
    PutEntry(d, From(book, ins, n), Difference(book, ins, outs, n), a, v);
    hide Spent, Difference, From, Put, DistinctKeys, Precedes, Done;
    NextDone(book, ins, outs, o, n, a, n);
    forall i
      ensures LastDone(book, ins, outs, o, n + 1, a, i) <==>
              if From(book, ins, n) == a then i == n else LastDone(book, ins, outs, o, n, a, i)
    {
      NextDone(book, ins, outs, o, n, a, i);
    }
    assert From(book, ins, n) == a ==> LastDone(book, ins, outs, o, n + 1, a, n);
  }

  lemma WrittenNow(book: Book, ins: seq<In>, outs: seq<Out>, o: nat, n: nat, d: Change)
    requires Resolved(book, ins) && o < |outs| && n < |ins| && Written(book, ins, outs, o, n, d)
    requires Gives(book, ins, outs, n) && ins[n].outI == o
    ensures Written(book, ins, outs, o, n + 1, Put(d, From(book, ins, n), Difference(book, ins, outs, n)))
  {
    hide Spent, Difference, From, Put, DistinctKeys, Precedes, Done;
    PutKeys(d, From(book, ins, n), Difference(book, ins, outs, n));
    forall a: Id, v: int
      ensures (a, v) in Put(d, From(book, ins, n), Difference(book, ins, outs, n)) <==>
              exists i :: LastDone(book, ins, outs, o, n + 1, a, i) && v == Difference(book, ins, outs, i)
    {
      EntryNow(book, ins, outs, o, n, d, a, v);
    }
  }

  lemma WrittenBefore(book: Book, ins: seq<In>, outs: seq<Out>, o: nat, n: nat, d: Change)
    requires Resolved(book, ins) && o < |outs| && n < |ins| && Written(book, ins, outs, o, n, d)
    requires !(Gives(book, ins, outs, n) && ins[n].outI == o)
    ensures Written(book, ins, outs, o, n + 1, d)
  {
    hide Spent, Difference, From, Put, DistinctKeys, Done, Precedes;
    forall a: Id, i
      ensures LastDone(book, ins, outs, o, n + 1, a, i) <==> LastDone(book, ins, outs, o, n, a, i)
    {
      NextDone(book, ins, outs, o, n, a, i);
    }
  }

  lemma {:induction false} ChangeIsWritten(book: Book, ins: seq<In>, outs: seq<Out>, o: nat, n: nat)
    requires o <= |outs| && n <= |ins| && (o == |outs| ==> n == 0) && Resolved(book, ins)
    ensures Written(book, ins, outs, o, n, ChangeAt(book, ins, outs, o, n))
    decreases o, n
  {
    hide Spent, LastDone, Written;
    if n > 0 {
      ChangeIsWritten(book, ins, outs, o, n - 1);
      if Gives(book, ins, outs, n - 1) && ins[n - 1].outI == o {
        WrittenNow(book, ins, outs, o, n - 1, ChangeAt(book, ins, outs, o, n - 1));
      } else {
        WrittenBefore(book, ins, outs, o, n - 1, ChangeAt(book, ins, outs, o, n - 1));
      }
    } else if o > 0 {
      ChangeIsWritten(book, ins, outs, o - 1, |ins|);
      NextOutput(book, ins, outs, o - 1, ChangeAt(book, ins, outs, o - 1, |ins|));
    } else {
      NothingWritten(book, ins, outs);
    }
  }

  lemma NextOutput(book: Book, ins: seq<In>, outs: seq<Out>, o: nat, d: Change)
    requires Resolved(book, ins) && Written(book, ins, outs, o, |ins|, d)
    ensures Written(book, ins, outs, o + 1, 0, d)
  {
    hide Spent, DistinctKeys, Precedes;
    assert forall i :: 0 <= i < |ins| ==> (Done(ins, i, o + 1, 0) <==> Done(ins, i, o, |ins|));
    assert forall a: Id, i: nat ::
        LastDone(book, ins, outs, o + 1, 0, a, i) <==> LastDone(book, ins, outs, o, |ins|, a, i);
  }

  lemma NothingWritten(book: Book, ins: seq<In>, outs: seq<Out>)
    requires Resolved(book, ins)
    ensures Written(book, ins, outs, 0, 0, [])
  {
  }

  /** An address is paid back exactly what the last input that it gives is worth more than the
      output funded by that input. */
  lemma ChangeEntries(book: Book, ins: seq<In>, outs: seq<Out>, a: Id, v: int)
    requires Resolved(book, ins)
    ensures (a, v) in ChangeAt(book, ins, outs, |outs|, 0) <==>
            exists i :: LastFor(book, ins, outs, a, i) && v == Difference(book, ins, outs, i)
  {
    hide Spent, Precedes;
    ChangeIsWritten(book, ins, outs, |outs|, 0);
    assert forall i: nat :: Gives(book, ins, outs, i) ==> Done(ins, i, |outs|, 0);
    assert forall i: nat :: LastFor(book, ins, outs, a, i) <==> LastDone(book, ins, outs, |outs|, 0, a, i);
  }

  // ---------- When nothing is lost ----------

  /** What the first `n` inputs bring for output `o`, none counted above what the output is worth. */
  function Capped(book: Book, ins: seq<In>, outs: seq<Out>, o: nat, n: nat): int
    requires o < |outs| && n <= |ins| && Resolved(book, ins)
  {
    if n == 0 then 0
    else
      var spent := Spent(book, ins[n - 1]).value.amount;
      Capped(book, ins, outs, o, n - 1) +
      if ins[n - 1].outI != o then 0 else if spent < outs[o].amount then spent else outs[o].amount
  }

  lemma {:induction false} FundingIsCappedAndExcess(book: Book, ins: seq<In>, outs: seq<Out>, o: nat, n: nat)
    requires o < |outs| && n <= |ins| && Resolved(book, ins) && NonNegative(book, ins, outs)
    ensures Funding(book, ins, o, n) == Capped(book, ins, outs, o, n) + Excess(book, ins, outs, o, n)
    ensures Capped(book, ins, outs, o, n) >= 0 && Excess(book, ins, outs, o, n) >= 0
    ensures Capped(book, ins, outs, o, n) >= outs[o].amount || Excess(book, ins, outs, o, n) == 0
  {
    hide Spent;
    if n > 0 {
      FundingIsCappedAndExcess(book, ins, outs, o, n - 1);
    }
  }

  /** The value of those of the first `n` inputs that fund no output. */
  function Stray(book: Book, ins: seq<In>, k: nat, n: nat): int
    requires n <= |ins| && Resolved(book, ins)
  {
    if n == 0 then 0
    else Stray(book, ins, k, n - 1) + if 0 <= ins[n - 1].outI < k then 0 else Spent(book, ins[n - 1]).value.amount
  }

  lemma {:induction false} StrayIsRest(book: Book, ins: seq<In>, k: nat, n: nat)
    requires n <= |ins| && Resolved(book, ins) && SpendsNonNegative(book, ins)
    ensures Brought(book, ins, n) == FundedBelow(book, ins, k, n) + Stray(book, ins, k, n)
    ensures Stray(book, ins, k, n) >= 0
    ensures Stray(book, ins, k, n) == 0 <==>
            forall i :: 0 <= i < n && !(0 <= ins[i].outI < k) ==> Spent(book, ins[i]).value.amount == 0
  {
    hide Spent;
    if n > 0 {
      StrayIsRest(book, ins, k, n - 1);
    }
  }

  lemma {:induction false} PutTotal(d: Change, k: Id, v: int)
    requires AllPositive(d) && v > 0
    ensures AllPositive(Put(d, k, v)) && ChangeTotal(Put(d, k, v)) <= ChangeTotal(d) + v
    ensures ChangeTotal(Put(d, k, v)) == ChangeTotal(d) + v <==> k !in Addresses(d)
  {
    if d != [] && d[0].0 != k {
      PutTotal(d[1..], k, v);
      assert Put(d, k, v)[1..] == Put(d[1..], k, v);
    } else if d != [] {
      assert Put(d, k, v)[1..] == d[1..];
    } else {
      assert [(k, v)][1..] == [];
    }
  }

  ghost predicate GivenTo(book: Book, ins: seq<In>, outs: seq<Out>, o: nat, n: nat, a: Id)
    requires Resolved(book, ins)
  {
    exists i :: Gives(book, ins, outs, i) && Done(ins, i, o, n) && From(book, ins, i) == a
  }

  /** No two of the inputs done give change to one address. */
  ghost predicate NoneTwice(book: Book, ins: seq<In>, outs: seq<Out>, o: nat, n: nat)
    requires Resolved(book, ins)
  {
    forall i, j ::
      Gives(book, ins, outs, i) && Done(ins, i, o, n) && Gives(book, ins, outs, j) && Done(ins, j, o, n) && i != j
      ==> From(book, ins, i) != From(book, ins, j)
  }

  /** All change given by then, overwritten or not. */
  function Gross(book: Book, ins: seq<In>, outs: seq<Out>, o: nat, n: nat): int
    requires o <= |outs| && n <= |ins| && (o == |outs| ==> n == 0) && Resolved(book, ins)
  {
    (if o == 0 then 0 else Gross(book, ins, outs, o - 1, |ins|)) +
    (if o == |outs| then 0 else Excess(book, ins, outs, o, n))
  }

  lemma DoneStep(ins: seq<In>, o: nat, n: nat)
    requires n < |ins|
    ensures forall j :: 0 <= j < |ins| ==>
              (Done(ins, j, o, n + 1) <==> Done(ins, j, o, n) || (j == n && ins[n].outI == o))
    ensures ins[n].outI == o ==> !Done(ins, n, o, n)
  {
    forall j | 0 <= j < |ins|
      ensures Done(ins, j, o, n + 1) <==> Done(ins, j, o, n) || (j == n && ins[n].outI == o)
    {
      assert j == n || j < n || j > n;
    }
  }

  lemma GivenStep(book: Book, ins: seq<In>, outs: seq<Out>, o: nat, n: nat, a: Id)
    requires Resolved(book, ins) && o < |outs| && n < |ins|
    ensures GivenTo(book, ins, outs, o, n + 1, a) <==>
            GivenTo(book, ins, outs, o, n, a) ||
            (Gives(book, ins, outs, n) && ins[n].outI == o && From(book, ins, n) == a)
  {
    DoneStep(ins, o, n);
    hide Spent, From, Done;
    if GivenTo(book, ins, outs, o, n + 1, a) {
      var i :| Gives(book, ins, outs, i) && Done(ins, i, o, n + 1) && From(book, ins, i) == a;
      assert Done(ins, i, o, n) || (i == n && ins[n].outI == o);
    }
    if GivenTo(book, ins, outs, o, n, a) {
      var i :| Gives(book, ins, outs, i) && Done(ins, i, o, n) && From(book, ins, i) == a;
      assert Done(ins, i, o, n + 1);
    }
    if Gives(book, ins, outs, n) && ins[n].outI == o {
      assert Done(ins, n, o, n + 1);
      assert GivenTo(book, ins, outs, o, n + 1, From(book, ins, n));
    }
  }

  lemma TwiceStep(book: Book, ins: seq<In>, outs: seq<Out>, o: nat, n: nat)
    requires Resolved(book, ins) && o < |outs| && n < |ins|
    ensures var now := Gives(book, ins, outs, n) && ins[n].outI == o;
            NoneTwice(book, ins, outs, o, n + 1) <==>
            NoneTwice(book, ins, outs, o, n) && (now ==> !GivenTo(book, ins, outs, o, n, From(book, ins, n)))
  {
    DoneStep(ins, o, n);
    hide Spent, From, Done;
    var now := Gives(book, ins, outs, n) && ins[n].outI == o;
    if now && GivenTo(book, ins, outs, o, n, From(book, ins, n)) {
      var i :| Gives(book, ins, outs, i) && Done(ins, i, o, n) && From(book, ins, i) == From(book, ins, n);
      assert Done(ins, i, o, n + 1) && Done(ins, n, o, n + 1) && i != n;
    }
  }

  lemma NextOutputTwice(book: Book, ins: seq<In>, outs: seq<Out>, o: nat)
    requires Resolved(book, ins)
    ensures NoneTwice(book, ins, outs, o + 1, 0) <==> NoneTwice(book, ins, outs, o, |ins|)
    ensures forall a :: GivenTo(book, ins, outs, o + 1, 0, a) <==> GivenTo(book, ins, outs, o, |ins|, a)
  {
    hide Spent, From;
    assert forall i :: 0 <= i < |ins| ==> (Done(ins, i, o + 1, 0) <==> Done(ins, i, o, |ins|));
  }

  /** Change is lost exactly by writing one address twice. */
  lemma {:induction false} ChangeIsGross(book: Book, ins: seq<In>, outs: seq<Out>, o: nat, n: nat)
    requires o <= |outs| && n <= |ins| && (o == |outs| ==> n == 0) && Resolved(book, ins)
    ensures var d := ChangeAt(book, ins, outs, o, n);
            && AllPositive(d) && (forall a :: a in Addresses(d) <==> GivenTo(book, ins, outs, o, n, a))
            && ChangeTotal(d) <= Gross(book, ins, outs, o, n)
            && (ChangeTotal(d) == Gross(book, ins, outs, o, n) <==> NoneTwice(book, ins, outs, o, n))
    decreases o, n
  {
    hide Spent, Put, Addresses, ChangeTotal, NoneTwice, GivenTo;
    if n > 0 {
      var d := ChangeAt(book, ins, outs, o, n - 1);
      ChangeIsGross(book, ins, outs, o, n - 1);
      TwiceStep(book, ins, outs, o, n - 1);
      forall a
        ensures GivenTo(book, ins, outs, o, n, a) <==>
                GivenTo(book, ins, outs, o, n - 1, a) ||
                (Gives(book, ins, outs, n - 1) && ins[n - 1].outI == o && From(book, ins, n - 1) == a)
      {
        GivenStep(book, ins, outs, o, n - 1, a);
      }
      if Gives(book, ins, outs, n - 1) && ins[n - 1].outI == o {
        PutTotal(d, From(book, ins, n - 1), Difference(book, ins, outs, n - 1));
        PutKeys(d, From(book, ins, n - 1), Difference(book, ins, outs, n - 1));
      }
    } else if o > 0 {
      ChangeIsGross(book, ins, outs, o - 1, |ins|);
      NextOutputTwice(book, ins, outs, o - 1);
    } else {
      NothingGiven(book, ins, outs);
    }
  }

  lemma NothingGiven(book: Book, ins: seq<In>, outs: seq<Out>)
    requires Resolved(book, ins)
    ensures NoneTwice(book, ins, outs, 0, 0) && forall a :: !GivenTo(book, ins, outs, 0, 0, a)
    ensures ChangeTotal([]) == 0 && Addresses([]) == {}
  {
  }

  /** The inputs for each output, none counted above what it is worth, add up to just that. */
  ghost predicate AllCapped(book: Book, ins: seq<In>, outs: seq<Out>, o: nat)
    requires o <= |outs| && Resolved(book, ins)
  {
    forall k :: 0 <= k < o ==> Capped(book, ins, outs, k, |ins|) == outs[k].amount
  }

  lemma {:induction false} OutputsAndGross(book: Book, ins: seq<In>, outs: seq<Out>, o: nat)
    requires o <= |outs| && Resolved(book, ins) && NonNegative(book, ins, outs)
    requires forall k :: 0 <= k < o ==> Funded(book, ins, outs, k)
    ensures Total(outs[..o]) + Gross(book, ins, outs, o, 0) <= FundedBelow(book, ins, o, |ins|)
    ensures Total(outs[..o]) + Gross(book, ins, outs, o, 0) == FundedBelow(book, ins, o, |ins|) <==>
            AllCapped(book, ins, outs, o)
  {
    hide Spent;
    if o == 0 {
      FundingSplits(book, ins, outs, 0, |ins|);
    } else {
      OutputsAndGross(book, ins, outs, o - 1);
      FundingSplits(book, ins, outs, o - 1, |ins|);
      FundingIsCappedAndExcess(book, ins, outs, o - 1, |ins|);
      assert Funded(book, ins, outs, o - 1);
      assert outs[..o][..o - 1] == outs[..o - 1];
    }
  }

  /** Outputs and change are worth exactly what the inputs bring, if and only if every input that
      is worth anything funds an output, those for each output, none counted above what it is
      worth, add up to just that, and no address is given change twice. */
  lemma ValueKeptIff(book: Book, ins: seq<In>, outs: seq<Out>)
    requires Resolved(book, ins) && NonNegative(book, ins, outs)
    requires forall o :: 0 <= o < |outs| ==> Funded(book, ins, outs, o)
    ensures Total(outs + AsOutputs(ChangeAt(book, ins, outs, |outs|, 0))) == Brought(book, ins, |ins|) <==>
            && (forall i :: 0 <= i < |ins| && !(0 <= ins[i].outI < |outs|) ==> Spent(book, ins[i]).value.amount == 0)
            && AllCapped(book, ins, outs, |outs|)
            && NoneTwice(book, ins, outs, |outs|, 0)
  {
    hide Spent, AllCapped, NoneTwice, Total, ChangeTotal, Brought, FundedBelow, Funded, ChangeAt;
    var d := ChangeAt(book, ins, outs, |outs|, 0);
    OutputsAndGross(book, ins, outs, |outs|);
    ChangeIsGross(book, ins, outs, |outs|, 0);
    StrayIsRest(book, ins, |outs|, |ins|);
    TotalOfChange(d);
    TotalConcat(outs, AsOutputs(d));
    assert outs[..|outs|] == outs;
  }

  lemma {:induction false} OneFunder(book: Book, ins: seq<In>, outs: seq<Out>, o: nat, n: nat)
    requires o < |outs| && n <= |ins| && Resolved(book, ins) && NonNegative(book, ins, outs)
    requires forall i, j :: 0 <= i < j < |ins| ==> ins[i].outI != ins[j].outI
    ensures (forall i :: 0 <= i < n ==> ins[i].outI != o) ==> Funding(book, ins, o, n) == 0
    ensures var f := Funding(book, ins, o, n);
            Capped(book, ins, outs, o, n) == if f < outs[o].amount then f else outs[o].amount
  {
    hide Spent;
    if n > 0 {
      OneFunder(book, ins, outs, o, n - 1);
    }
  }

  /** In particular if every input funds an output of its own, and all come from different
      addresses, nothing is lost. */
  lemma OneToOneKeepsValue(book: Book, ins: seq<In>, outs: seq<Out>)
    requires Resolved(book, ins) && NonNegative(book, ins, outs)
    requires forall o :: 0 <= o < |outs| ==> Funded(book, ins, outs, o)
    requires forall i :: 0 <= i < |ins| ==> 0 <= ins[i].outI < |outs|
    requires forall i, j :: 0 <= i < j < |ins| ==> ins[i].outI != ins[j].outI
    requires forall i, j :: 0 <= i < j < |ins| ==> From(book, ins, i) != From(book, ins, j)
    ensures Total(outs + AsOutputs(ChangeAt(book, ins, outs, |outs|, 0))) == Brought(book, ins, |ins|)
  {
    ValueKeptIff(book, ins, outs);
    hide Spent, ChangeAt, Capped, Funding, Total, AsOutputs, Brought;
    forall o | 0 <= o < |outs|
      ensures Capped(book, ins, outs, o, |ins|) == outs[o].amount
    {
      assert Funded(book, ins, outs, o);
      OneFunder(book, ins, outs, o, |ins|);
    }
  }
}
