/** The older transaction rules: a check matches inputs to the outputs they fund, works out the
    change each funding address gets back, and appends that change as outputs. */
module Ledger {
  import opened Wrappers

  type Id = nat
  datatype Out = Out(address: Id, amount: int)
  datatype In = In(tx: Id, txI: int, outI: int)

  /** The outputs of every transaction that can be looked up by hash. */
  type Book = map<Id, seq<Out>>

  datatype Failure =
    | MoreOutputsThanInputs
    | ZeroOutput(at: nat)
    | Overspending(at: nat)
    | NoSuchInput
    | IndexOutOfRange
    | FalseSignature
    | AlreadyUsed
    | AlreadyExists
    | IsCoinbase

  /** An insertion-ordered dictionary from addresses to amounts. */
  type Change = seq<(Id, int)>

  datatype Amounts = Coinbase | Accepted(change: Change) | Rejected(why: Failure)

  // ---------- Looking things up ----------

  /** Python's list indexing, negative indices counting from the end. */
  function Item<T>(s: seq<T>, i: int): Option<T> {
    if 0 <= i < |s| then Some(s[i])
    else if -|s| <= i < 0 then Some(s[|s| + i])
    else None
  }

  /** An index is good from minus the length up to below it, and counts around. */
  lemma ItemWraps<T>(s: seq<T>, i: int)
    ensures Item(s, i) == if -|s| <= i < |s| then Some(s[i % |s|]) else None
  {
    if -|s| <= i < 0 {
      assert i % |s| == i + |s|;
    }
  }

  /** The output an input spends. */
  function Spent(book: Book, x: In): Option<Out> {
    if x.tx in book then Item(book[x.tx], x.txI) else None
  }

  predicate Resolved(book: Book, ins: seq<In>) {
    forall i :: 0 <= i < |ins| ==> Spent(book, ins[i]).Some?
  }

  /** The value of the first `n` inputs. */
  function Brought(book: Book, ins: seq<In>, n: nat): int
    requires n <= |ins| && Resolved(book, ins)
  {
    if n == 0 then 0 else Brought(book, ins, n - 1) + Spent(book, ins[n - 1]).value.amount
  }

  /** The value of those of the first `n` inputs that fund output `o`. */
  function Funding(book: Book, ins: seq<In>, o: nat, n: nat): int
    requires n <= |ins| && Resolved(book, ins)
  {
    if n == 0 then 0
    else Funding(book, ins, o, n - 1) + if ins[n - 1].outI == o then Spent(book, ins[n - 1]).value.amount else 0
  }

  function Total(outs: seq<Out>): int {
    if outs == [] then 0 else Total(outs[..|outs| - 1]) + outs[|outs| - 1].amount
  }

  // ---------- The change dictionary ----------

  function Put(d: Change, k: Id, v: int): (d': Change)
    ensures (k, v) in d'
  {
    if d == [] then [(k, v)]
    else if d[0].0 == k then [(k, v)] + d[1..]
    else [d[0]] + Put(d[1..], k, v)
  }

  function ChangeTotal(d: Change): int {
    if d == [] then 0 else d[0].1 + ChangeTotal(d[1..])
  }

  /** The dictionary once outputs before `o`, and the first `n` inputs for output `o`, are done:
      every input worth more than the output it funds writes the difference to its address. */
  function ChangeAt(book: Book, ins: seq<In>, outs: seq<Out>, o: nat, n: nat): Change
    requires o <= |outs| && n <= |ins| && (o == |outs| ==> n == 0) && Resolved(book, ins)
    decreases o, n
  {
    if n > 0 then
      var before := ChangeAt(book, ins, outs, o, n - 1);
      var spent := Spent(book, ins[n - 1]).value;
      if ins[n - 1].outI == o && outs[o].amount < spent.amount
      then Put(before, spent.address, spent.amount - outs[o].amount) else before
    else if o > 0 then ChangeAt(book, ins, outs, o - 1, |ins|)
    else []
  }

  predicate Funded(book: Book, ins: seq<In>, outs: seq<Out>, o: nat)
    requires o < |outs| && Resolved(book, ins)
  {
    outs[o].amount != 0 && outs[o].amount <= Funding(book, ins, o, |ins|)
  }

  // ---------- Nothing is created ----------

  ghost predicate SpendsNonNegative(book: Book, ins: seq<In>)
    requires Resolved(book, ins)
  {
    forall i :: 0 <= i < |ins| ==> Spent(book, ins[i]).value.amount >= 0
  }

  ghost predicate NonNegative(book: Book, ins: seq<In>, outs: seq<Out>)
    requires Resolved(book, ins)
  {
    SpendsNonNegative(book, ins) && forall o :: 0 <= o < |outs| ==> outs[o].amount >= 0
  }

  ghost predicate AllPositive(d: Change) {
    forall i :: 0 <= i < |d| ==> d[i].1 > 0
  }

  /** Writing an entry adds at most its value, less if it overwrites another. */
  lemma {:induction false} PutAddsAtMost(d: Change, k: Id, v: int)
    requires AllPositive(d) && v > 0
    ensures AllPositive(Put(d, k, v)) && ChangeTotal(Put(d, k, v)) <= ChangeTotal(d) + v
  {
    if d != [] && d[0].0 != k {
      PutAddsAtMost(d[1..], k, v);
      assert Put(d, k, v)[1..] == Put(d[1..], k, v);
    } else if d != [] {
      assert Put(d, k, v)[1..] == d[1..];
    } else {
      assert [(k, v)][1..] == [];
    }
  }

  /** The change written for output `o` by the first `n` inputs, overwritten or not. */
  function Excess(book: Book, ins: seq<In>, outs: seq<Out>, o: nat, n: nat): int
    requires o < |outs| && n <= |ins| && Resolved(book, ins)
  {
    if n == 0 then 0
    else
      var spent := Spent(book, ins[n - 1]).value.amount;
      Excess(book, ins, outs, o, n - 1) +
      if ins[n - 1].outI == o && outs[o].amount < spent then spent - outs[o].amount else 0
  }

  /** Either no input is worth more than the output, or output and change fit in the funding. */
  lemma {:induction false} ExcessWithinFunding(book: Book, ins: seq<In>, outs: seq<Out>, o: nat, n: nat)
    requires o < |outs| && n <= |ins| && Resolved(book, ins) && NonNegative(book, ins, outs)
    ensures 0 <= Excess(book, ins, outs, o, n) && 0 <= Funding(book, ins, o, n)
    ensures Excess(book, ins, outs, o, n) == 0
            || Excess(book, ins, outs, o, n) + outs[o].amount <= Funding(book, ins, o, n)
  {
    if n > 0 {
      ExcessWithinFunding(book, ins, outs, o, n - 1);
    }
  }

  lemma {:induction false} ChangeWithinExcess(book: Book, ins: seq<In>, outs: seq<Out>, o: nat, n: nat)
    requires o < |outs| && n <= |ins| && Resolved(book, ins) && NonNegative(book, ins, outs)
    requires AllPositive(ChangeAt(book, ins, outs, o, 0))
    ensures AllPositive(ChangeAt(book, ins, outs, o, n))
    ensures ChangeTotal(ChangeAt(book, ins, outs, o, n))
            <= ChangeTotal(ChangeAt(book, ins, outs, o, 0)) + Excess(book, ins, outs, o, n)
  {
    hide Put, Spent;
    if n > 0 {
      ChangeWithinExcess(book, ins, outs, o, n - 1);
      var spent := Spent(book, ins[n - 1]).value;
      if ins[n - 1].outI == o && outs[o].amount < spent.amount {
        PutAddsAtMost(ChangeAt(book, ins, outs, o, n - 1), spent.address, spent.amount - outs[o].amount);
      }
    }
  }

  /** The value of those of the first `n` inputs that fund an output before `k`. */
  function FundedBelow(book: Book, ins: seq<In>, k: nat, n: nat): int
    requires n <= |ins| && Resolved(book, ins)
  {
    if n == 0 then 0
    else FundedBelow(book, ins, k, n - 1) + if 0 <= ins[n - 1].outI < k then Spent(book, ins[n - 1]).value.amount else 0
  }

  /** Every input funds at most one output. */
  lemma {:induction false} FundingSplits(book: Book, ins: seq<In>, outs: seq<Out>, k: nat, n: nat)
    requires n <= |ins| && Resolved(book, ins) && NonNegative(book, ins, outs)
    ensures FundedBelow(book, ins, k + 1, n) == FundedBelow(book, ins, k, n) + Funding(book, ins, k, n)
    ensures FundedBelow(book, ins, 0, n) == 0
    ensures FundedBelow(book, ins, k, n) <= Brought(book, ins, n)
  {
    if n > 0 {
      FundingSplits(book, ins, outs, k, n - 1);
    }
  }

  lemma {:induction false} OutputsAndChange(book: Book, ins: seq<In>, outs: seq<Out>, o: nat)
    requires o <= |outs| && Resolved(book, ins) && NonNegative(book, ins, outs)
    requires forall k :: 0 <= k < o ==> Funded(book, ins, outs, k)
    ensures AllPositive(ChangeAt(book, ins, outs, o, 0))
    ensures Total(outs[..o]) + ChangeTotal(ChangeAt(book, ins, outs, o, 0)) <= FundedBelow(book, ins, o, |ins|)
  {
    if o == 0 {
      FundingSplits(book, ins, outs, 0, |ins|);
    } else {
      OutputsAndChange(book, ins, outs, o - 1);
      ChangeWithinExcess(book, ins, outs, o - 1, |ins|);
      ExcessWithinFunding(book, ins, outs, o - 1, |ins|);
      FundingSplits(book, ins, outs, o - 1, |ins|);
      assert Funded(book, ins, outs, o - 1);
      assert outs[..o][..o - 1] == outs[..o - 1];
    }
  }

  function AsOutputs(d: Change): (outs: seq<Out>)
    ensures |outs| == |d|
  {
    if d == [] then [] else [Out(d[0].0, d[0].1)] + AsOutputs(d[1..])
  }

  lemma {:induction false} TotalConcat(a: seq<Out>, b: seq<Out>)
    ensures Total(a + b) == Total(a) + Total(b)
  {
    if b == [] {
      assert a + b == a;
    } else {
      var n := |b| - 1;
      TotalConcat(a, b[..n]);
      assert (a + b)[..|a + b| - 1] == a + b[..n];
    }
  }

  lemma {:induction false} TotalOfChange(d: Change)
    ensures Total(AsOutputs(d)) == ChangeTotal(d)
  {
    if d != [] {
      var first := Out(d[0].0, d[0].1);
      TotalOfChange(d[1..]);
      TotalConcat([first], AsOutputs(d[1..]));
      assert Total([first]) == first.amount by { assert [first][..0] == []; }
    }
  }

  /** With every output funded and no negative amount, outputs and change together are worth
      no more than the inputs. */
  lemma NoValueCreated(book: Book, ins: seq<In>, outs: seq<Out>)
    requires Resolved(book, ins) && NonNegative(book, ins, outs)
    requires forall o :: 0 <= o < |outs| ==> Funded(book, ins, outs, o)
    ensures Total(outs + AsOutputs(ChangeAt(book, ins, outs, |outs|, 0))) <= Brought(book, ins, |ins|)
  {
    var d := ChangeAt(book, ins, outs, |outs|, 0);
    OutputsAndChange(book, ins, outs, |outs|);
    FundingSplits(book, ins, outs, |outs|, |ins|);
    TotalOfChange(d);
    TotalConcat(outs, AsOutputs(d));
    assert outs[..|outs|] == outs;
  }

  /** A negative output breaks that: two inputs of 10 funding an output of -5 are given 15 each. */
  lemma NegativeOutputCreatesValue(book: Book, ins: seq<In>, outs: seq<Out>)
    requires book == map[7 := [Out(1, 10), Out(2, 10)]]
    requires ins == [In(7, 0, 0), In(7, 1, 0)] && outs == [Out(3, -5)]
    ensures Resolved(book, ins) && Funded(book, ins, outs, 0)
    ensures Brought(book, ins, 2) == 20
    ensures Total(outs + AsOutputs(ChangeAt(book, ins, outs, 1, 0))) == 25
  {
    assert Spent(book, ins[0]) == Some(Out(1, 10)) && Spent(book, ins[1]) == Some(Out(2, 10));
    assert Brought(book, ins, 0) == 0 && Funding(book, ins, 0, 0) == 0;
    assert Brought(book, ins, 1) == 10;
    assert Funding(book, ins, 0, 1) == 10;
    assert Funding(book, ins, 0, 2) == 20;
    assert ChangeAt(book, ins, outs, 0, 0) == [];
    assert ChangeAt(book, ins, outs, 0, 1) == Put([], 1, 15) == [(1, 15)];
    var d := ChangeAt(book, ins, outs, 1, 0);
    assert Put([(1, 15)], 2, 15) == [(1, 15)] + Put([], 2, 15) by { assert [(1, 15)][1..] == []; }
    assert ChangeAt(book, ins, outs, 0, 2) == Put([(1, 15)], 2, 15);
    assert d == [(1, 15), (2, 15)];
    TotalOfChange(d);
    assert ChangeTotal([(2, 15)]) == 15 && d[1..] == [(2, 15)];
    TotalConcat(outs, AsOutputs(d));
    assert Total(outs) == -5 by { assert outs[..0] == []; }
  }

  /** Whatever the inputs are worth, outputs that pass the check create no value with their change. */
  ghost predicate CreatesNothing(outs: seq<Out>) {
    forall book: Book, ins: seq<In> ::
      && Resolved(book, ins) && SpendsNonNegative(book, ins)
      && |outs| <= |ins| && (forall o :: 0 <= o < |outs| ==> Funded(book, ins, outs, o))
      ==> Total(outs + AsOutputs(ChangeAt(book, ins, outs, |outs|, 0))) <= Brought(book, ins, |ins|)
  }

  function Max(a: int, b: int): int {
    if a >= b then a else b
  }

  /** A book in which every output of `outs` is paid for exactly, as far as it is positive, and
      one output worth nothing is left. */
  function ExactBook(outs: seq<Out>): Book {
    map[0 := seq(|outs| + 1, i requires 0 <= i <= |outs| =>
               Out(i, if i < |outs| then Max(outs[i].amount, 0) else 0))]
  }

  /** Input `i` pays for output `i`, and the one worth nothing for output `q` once more. */
  function ExactInputs(outs: seq<Out>, q: nat): (ins: seq<In>)
    ensures |ins| == |outs| + 1
  {
    seq(|outs| + 1, i requires 0 <= i <= |outs| => In(0, i, if i < |outs| then i else q))
  }

  lemma ExactSpent(outs: seq<Out>, q: nat, i: nat)
    requires i <= |outs|
    ensures Spent(ExactBook(outs), ExactInputs(outs, q)[i])
            == Some(Out(i, if i < |outs| then Max(outs[i].amount, 0) else 0))
  {
  }

  lemma ExactResolved(outs: seq<Out>, q: nat)
    ensures Resolved(ExactBook(outs), ExactInputs(outs, q))
    ensures forall i :: 0 <= i <= |outs| ==> Spent(ExactBook(outs), ExactInputs(outs, q)[i]).value.amount >= 0
  {
    forall i | 0 <= i <= |outs|
      ensures Spent(ExactBook(outs), ExactInputs(outs, q)[i]).Some?
      ensures Spent(ExactBook(outs), ExactInputs(outs, q)[i]).value.amount >= 0
    {
      ExactSpent(outs, q, i);
    }
  }

  /** What the first `o` outputs are above or below zero. */
  function Above(outs: seq<Out>, o: nat): int
    requires o <= |outs|
  {
    if o == 0 then 0 else Above(outs, o - 1) + Max(outs[o - 1].amount, 0)
  }

  function Under(outs: seq<Out>, o: nat): int
    requires o <= |outs|
  {
    if o == 0 then 0 else Under(outs, o - 1) + Max(-outs[o - 1].amount, 0)
  }

  lemma {:induction false} TotalSplits(outs: seq<Out>, o: nat)
    requires o <= |outs|
    ensures Total(outs[..o]) == Above(outs, o) - Under(outs, o)
  {
    if o > 0 {
      TotalSplits(outs, o - 1);
      assert outs[..o][..o - 1] == outs[..o - 1];
    }
  }

  lemma {:induction false} ExactFunding(outs: seq<Out>, q: nat, o: nat, n: nat)
    requires o < |outs| && n <= |outs| + 1 && Resolved(ExactBook(outs), ExactInputs(outs, q))
    ensures Funding(ExactBook(outs), ExactInputs(outs, q), o, n) == if o < n then Max(outs[o].amount, 0) else 0
    ensures Brought(ExactBook(outs), ExactInputs(outs, q), n) == Above(outs, if n <= |outs| then n else |outs|)
  {
    hide Spent, ExactBook, ExactInputs;
    if n > 0 {
      ExactFunding(outs, q, o, n - 1);
      ExactSpent(outs, q, n - 1);
      ExactInputAt(outs, q, n - 1);
    }
  }

  function Addresses(d: Change): set<Id> {
    if d == [] then {} else {d[0].0} + Addresses(d[1..])
  }

  /** An entry for an address that has none is added to the others. */
  lemma {:induction false} PutAdds(d: Change, k: Id, v: int)
    requires k !in Addresses(d)
    ensures ChangeTotal(Put(d, k, v)) == ChangeTotal(d) + v
    ensures Addresses(Put(d, k, v)) == Addresses(d) + {k}
  {
    if d == [] {
      assert [(k, v)][1..] == [];
    } else {
      PutAdds(d[1..], k, v);
      assert Put(d, k, v)[1..] == Put(d[1..], k, v);
    }
  }

  /** Whether the input worth nothing has been looked at for output `q`. */
  predicate Twice(outs: seq<Out>, q: nat, o: nat, n: nat) {
    q < o || (q == o && n == |outs| + 1)
  }

  /** The change once the first `n` inputs for output `o` are done: at the addresses looked at,
      what the negative outputs are under zero, and output `q` once more. */
  ghost predicate ExactSoFar(outs: seq<Out>, q: nat, o: nat, n: nat, d: Change)
    requires q < |outs| && o <= |outs| && (o == |outs| ==> n == 0)
  {
    && (forall k :: k in Addresses(d) ==> k < o || (k == o && o < n) || (k == |outs| && Twice(outs, q, o, n)))
    && ChangeTotal(d) == Under(outs, o) + (if o < n then Max(-outs[o].amount, 0) else 0)
                         + if Twice(outs, q, o, n) then -outs[q].amount else 0
  }

  lemma ExactStep(outs: seq<Out>, q: nat, o: nat, n: nat, d: Change)
    requires q < |outs| && outs[q].amount < 0 && o < |outs| && n <= |outs|
    requires ExactSoFar(outs, q, o, n, d)
    ensures var pays := n == o || (n == |outs| && q == o);
            ExactSoFar(outs, q, o, n + 1, if pays && outs[o].amount < 0 then Put(d, n, -outs[o].amount) else d)
  {
    hide Put, ChangeTotal, Under;
    if (n == o || (n == |outs| && q == o)) && outs[o].amount < 0 {
      PutAdds(d, n, -outs[o].amount);
    }
  }

  lemma {:induction false} ExactChange(outs: seq<Out>, q: nat, o: nat, n: nat)
    requires q < |outs| && outs[q].amount < 0 && Resolved(ExactBook(outs), ExactInputs(outs, q))
    requires o <= |outs| && n <= |outs| + 1 && (o == |outs| ==> n == 0)
    ensures ExactSoFar(outs, q, o, n, ChangeAt(ExactBook(outs), ExactInputs(outs, q), outs, o, n))
    decreases o, n
  {
    hide Put, ExactBook, ExactInputs, Spent;
    if n > 0 {
      ExactChange(outs, q, o, n - 1);
      ExactSpent(outs, q, n - 1);
      ExactInputAt(outs, q, n - 1);
      ExactStep(outs, q, o, n - 1, ChangeAt(ExactBook(outs), ExactInputs(outs, q), outs, o, n - 1));
    } else if o > 0 {
      ExactChange(outs, q, o - 1, |outs| + 1);
    }
  }

  lemma ExactInputAt(outs: seq<Out>, q: nat, i: nat)
    requires i <= |outs|
    ensures ExactInputs(outs, q)[i].outI == if i < |outs| then i else q
  {
  }

  /** Any outputs with a negative amount, and none of zero, pass with inputs they outgrow. */
  lemma NegativeOutgrows(outs: seq<Out>, q: nat)
    requires q < |outs| && outs[q].amount < 0 && forall o :: 0 <= o < |outs| ==> outs[o].amount != 0
    ensures !CreatesNothing(outs)
  {
    var book, ins := ExactBook(outs), ExactInputs(outs, q);
    ExactResolved(outs, q);
    forall o | 0 <= o < |outs|
      ensures Funded(book, ins, outs, o)
    {
      ExactFunding(outs, q, o, |outs| + 1);
    }
    ExactFunding(outs, q, q, |outs| + 1);
    ExactChange(outs, q, |outs|, 0);
    TotalSplits(outs, |outs|);
    assert outs[..|outs|] == outs;
    var d := ChangeAt(book, ins, outs, |outs|, 0);
    TotalOfChange(d);
    TotalConcat(outs, AsOutputs(d));
    assert Total(outs + AsOutputs(d)) > Brought(book, ins, |ins|);
  }

  /** The check keeps outputs and change within the inputs for exactly those outputs that have
      no negative amount, or a zero one, which never passes. */
  lemma CreatesNothingIff(outs: seq<Out>)
    ensures CreatesNothing(outs) <==>
            (forall o :: 0 <= o < |outs| ==> outs[o].amount >= 0) || exists o :: 0 <= o < |outs| && outs[o].amount == 0
  {
    if forall o :: 0 <= o < |outs| ==> outs[o].amount >= 0 {
      forall book: Book, ins: seq<In> |
        && Resolved(book, ins) && SpendsNonNegative(book, ins)
        && |outs| <= |ins| && (forall o :: 0 <= o < |outs| ==> Funded(book, ins, outs, o))
        ensures Total(outs + AsOutputs(ChangeAt(book, ins, outs, |outs|, 0))) <= Brought(book, ins, |ins|)
      {
        NoValueCreated(book, ins, outs);
      }
    } else if forall o :: 0 <= o < |outs| ==> outs[o].amount != 0 {
      var q :| 0 <= q < |outs| && outs[q].amount < 0;
      NegativeOutgrows(outs, q);
    } else {
      var z :| 0 <= z < |outs| && outs[z].amount == 0;
      forall book: Book, ins: seq<In> | Resolved(book, ins)
        ensures !Funded(book, ins, outs, z)
      {
      }
    }
  }

  // ---------- Outputs named twice ----------

  /** The output an input names: a transaction and an index from the front. */
  function Named(book: Book, x: In): (Id, int)
    requires Spent(book, x).Some?
  {
    (x.tx, if x.txI >= 0 then x.txI else |book[x.tx]| + x.txI)
  }

  /** No input before `i` names the same output. */
  predicate FirstNamed(book: Book, ins: seq<In>, i: nat)
    requires i < |ins| && Resolved(book, ins)
  {
    forall k :: 0 <= k < i ==> Named(book, ins[k]) != Named(book, ins[i])
  }

  /** The value of the outputs that the first `n` inputs name, each counted once. */
  function Worth(book: Book, ins: seq<In>, n: nat): int
    requires n <= |ins| && Resolved(book, ins)
  {
    if n == 0 then 0
    else Worth(book, ins, n - 1) + if FirstNamed(book, ins, n - 1) then Spent(book, ins[n - 1]).value.amount else 0
  }

  /** No output worth anything is named twice. */
  ghost predicate NamedOnce(book: Book, ins: seq<In>)
    requires Resolved(book, ins)
  {
    forall i :: 0 <= i < |ins| ==> FirstNamed(book, ins, i) || Spent(book, ins[i]).value.amount == 0
  }

  lemma {:induction false} WorthIsBrought(book: Book, ins: seq<In>, n: nat)
    requires n <= |ins| && Resolved(book, ins) && SpendsNonNegative(book, ins)
    ensures 0 <= Worth(book, ins, n) <= Brought(book, ins, n)
    ensures NamedOnce(book, ins) ==> Worth(book, ins, n) == Brought(book, ins, n)
    ensures forall i :: 0 <= i < n && !FirstNamed(book, ins, i) && Spent(book, ins[i]).value.amount > 0 ==>
              Worth(book, ins, n) < Brought(book, ins, n)
    ensures forall i :: 0 <= i < n ==> Spent(book, ins[i]).value.amount <= Brought(book, ins, n)
  {
    hide FirstNamed, Spent;
    if n > 0 {
      WorthIsBrought(book, ins, n - 1);
    }
  }

  /** The same inputs, except for which outputs they fund. */
  ghost predicate SameRefs(ins: seq<In>, ins': seq<In>) {
    |ins| == |ins'| && forall i :: 0 <= i < |ins| ==> ins[i].tx == ins'[i].tx && ins[i].txI == ins'[i].txI
  }

  lemma SameNamed(book: Book, ins: seq<In>, ins': seq<In>)
    requires SameRefs(ins, ins') && Resolved(book, ins)
    ensures Resolved(book, ins') && SpendsNonNegative(book, ins') == SpendsNonNegative(book, ins)
    ensures forall i :: 0 <= i < |ins| ==> Spent(book, ins'[i]) == Spent(book, ins[i])
    ensures forall i :: 0 <= i < |ins| ==> FirstNamed(book, ins', i) == FirstNamed(book, ins, i)
  {
    hide Item;
    forall i | 0 <= i < |ins|
      ensures Spent(book, ins'[i]) == Spent(book, ins[i]) && Named(book, ins'[i]) == Named(book, ins[i])
    {
      assert Spent(book, ins[i]).Some?;
    }
    hide Named, Spent;
  }

  lemma {:induction false} SameWorth(book: Book, ins: seq<In>, ins': seq<In>, n: nat)
    requires n <= |ins| && SameRefs(ins, ins') && Resolved(book, ins)
    ensures Resolved(book, ins') && Worth(book, ins', n) == Worth(book, ins, n)
    ensures Brought(book, ins', n) == Brought(book, ins, n)
  {
    hide FirstNamed, Spent, Resolved;
    SameNamed(book, ins, ins');
    if n > 0 {
      SameWorth(book, ins, ins', n - 1);
    }
  }

  /** Whatever these inputs fund, what passes the check is worth no more than the outputs they name. */
  ghost predicate Conserves(book: Book, ins: seq<In>)
    requires Resolved(book, ins)
  {
    forall ins': seq<In>, outs: seq<Out> ::
      && SameRefs(ins, ins') && Resolved(book, ins') && NonNegative(book, ins', outs)
      && |outs| <= |ins'| && (forall o :: 0 <= o < |outs| ==> Funded(book, ins', outs, o))
      ==> Total(outs + AsOutputs(ChangeAt(book, ins', outs, |outs|, 0))) <= Worth(book, ins', |ins'|)
  }

  function AllFund0(ins: seq<In>): (ins': seq<In>)
    ensures SameRefs(ins, ins') && forall i :: 0 <= i < |ins'| ==> ins'[i].outI == 0
  {
    seq(|ins|, i requires 0 <= i < |ins| => In(ins[i].tx, ins[i].txI, 0))
  }

  lemma {:induction false} OneOutput(book: Book, ins: seq<In>, outs: seq<Out>, n: nat)
    requires n <= |ins| && Resolved(book, ins) && |outs| == 1
    requires forall i :: 0 <= i < |ins| ==> ins[i].outI == 0 && Spent(book, ins[i]).value.amount <= outs[0].amount
    ensures Funding(book, ins, 0, n) == Brought(book, ins, n)
    ensures ChangeAt(book, ins, outs, 0, n) == []
  {
    if n > 0 {
      OneOutput(book, ins, outs, n - 1);
    }
  }

  /** Inputs that all fund one output of their whole value pass, and leave no change. */
  lemma PaysItAll(book: Book, ins: seq<In>, outs: seq<Out>)
    requires Resolved(book, ins) && SpendsNonNegative(book, ins) && forall i :: 0 <= i < |ins| ==> ins[i].outI == 0
    requires outs == [Out(0, Brought(book, ins, |ins|))] && outs[0].amount > 0
    ensures Funded(book, ins, outs, 0) && NonNegative(book, ins, outs) && |ins| > 0
    ensures Total(outs + AsOutputs(ChangeAt(book, ins, outs, |outs|, 0))) == Brought(book, ins, |ins|)
  {
    hide FirstNamed, Spent, Named, Worth;
    WorthIsBrought(book, ins, |ins|);
    OneOutput(book, ins, outs, |ins|);
    var d := ChangeAt(book, ins, outs, 1, 0);
    assert d == [] && AsOutputs(d) == [];
    assert outs[..0] == [] && outs + AsOutputs(d) == outs;
  }

  lemma NamedTwiceCreates(book: Book, ins: seq<In>, i: nat)
    requires Resolved(book, ins) && SpendsNonNegative(book, ins)
    requires i < |ins| && !FirstNamed(book, ins, i) && Spent(book, ins[i]).value.amount > 0
    ensures !Conserves(book, ins)
  {
    hide FirstNamed, Spent, Named, Worth, Brought, Total, ChangeAt, Funded, AsOutputs;
    hide SpendsNonNegative, NonNegative;
    var n, ins' := |ins|, AllFund0(ins);
    var outs := [Out(0, Brought(book, ins, n))];
    WorthIsBrought(book, ins, n);
    SameNamed(book, ins, ins');
    SameWorth(book, ins, ins', n);
    PaysItAll(book, ins', outs);
  }

  /** The check counts an output as often as the transaction names it, so nothing is created
      exactly if none that is worth anything is named twice. */
  lemma ConservesIff(book: Book, ins: seq<In>)
    requires Resolved(book, ins) && SpendsNonNegative(book, ins)
    ensures Conserves(book, ins) <==> NamedOnce(book, ins)
  {
    hide FirstNamed, Spent, ChangeAt, Funded;
    if NamedOnce(book, ins) {
      forall ins': seq<In>, outs: seq<Out> |
        && SameRefs(ins, ins') && Resolved(book, ins') && NonNegative(book, ins', outs)
        && |outs| <= |ins'| && (forall o :: 0 <= o < |outs| ==> Funded(book, ins', outs, o))
        ensures Total(outs + AsOutputs(ChangeAt(book, ins', outs, |outs|, 0))) <= Worth(book, ins', |ins'|)
      {
        SameNamed(book, ins, ins');
        SameWorth(book, ins, ins', |ins|);
        WorthIsBrought(book, ins, |ins|);
        NoValueCreated(book, ins', outs);
      }
    } else {
      var i :| 0 <= i < |ins| && !FirstNamed(book, ins, i) && Spent(book, ins[i]).value.amount != 0;
      NamedTwiceCreates(book, ins, i);
    }
  }

  /** One output of 10, named by two inputs, pays for two outputs of 10. */
  lemma OneOutputPaysTwice(book: Book, ins: seq<In>, outs: seq<Out>)
    requires book == map[7 := [Out(1, 10)]] && ins == [In(7, 0, 0), In(7, 0, 1)]
    requires outs == [Out(2, 10), Out(3, 10)]
    ensures Resolved(book, ins) && NonNegative(book, ins, outs)
    ensures Funded(book, ins, outs, 0) && Funded(book, ins, outs, 1)
    ensures Worth(book, ins, 2) == 10 && Total(outs) == 20
  {
    assert Spent(book, ins[0]) == Some(Out(1, 10)) && Spent(book, ins[1]) == Some(Out(1, 10));
    assert Worth(book, ins, 1) == 10;
    assert Funding(book, ins, 0, 0) == 0 && Funding(book, ins, 1, 0) == 0;
    assert Funding(book, ins, 0, 1) == 10 && Funding(book, ins, 1, 1) == 0;
    assert outs[..1] == [Out(2, 10)] && outs[..1][..0] == [] && Total([]) == 0;
    assert Total(outs[..1]) == 10;
  }

  // ---------- The checks ----------

  /** Whether each output is funded, and the change; -1 for a transaction that makes coins. */
  method TxAmountsValid(book: Book, ins: seq<In>, outs: seq<Out>) returns (r: Amounts)
    requires Resolved(book, ins)
    ensures r.Coinbase? <==> |ins| == 0 && |outs| == 1
    ensures r.Accepted? <==>
              && !(|ins| == 0 && |outs| == 1) && |outs| <= |ins|
              && forall o :: 0 <= o < |outs| ==> Funded(book, ins, outs, o)
    ensures r.Accepted? ==> r.change == ChangeAt(book, ins, outs, |outs|, 0)
    ensures r.Rejected? ==> r.why.MoreOutputsThanInputs? || r.why.ZeroOutput? || r.why.Overspending?
    ensures r.Rejected? && r.why.MoreOutputsThanInputs? ==> |outs| > |ins|
    ensures r.Rejected? && r.why.ZeroOutput? ==> r.why.at < |outs| && outs[r.why.at].amount == 0
    ensures r.Rejected? && r.why.Overspending? ==>
              r.why.at < |outs| && outs[r.why.at].amount > Funding(book, ins, r.why.at, |ins|)
  {
    hide Put, Item;
    if |ins| == 0 && |outs| == 1 {
      return Coinbase;
    } else if |outs| > |ins| {
      return Rejected(MoreOutputsThanInputs);
    }
    var change: Change := [];
    for o := 0 to |outs|
      invariant change == ChangeAt(book, ins, outs, o, 0)
      invariant forall k :: 0 <= k < o ==> Funded(book, ins, outs, k)
    {
      var output := outs[o];
      if output.amount == 0 {
        assert !Funded(book, ins, outs, o);
        return Rejected(ZeroOutput(o));
      }
      var inTotal := 0;
      for i := 0 to |ins|
        invariant inTotal == Funding(book, ins, o, i)
        invariant change == ChangeAt(book, ins, outs, o, i)
      {
        if ins[i].outI == o {
          var spent := Spent(book, ins[i]).value;
          inTotal := inTotal + spent.amount;
          if output.amount < spent.amount {
            change := Put(change, spent.address, spent.amount - output.amount);
          }
        }
      }
      if output.amount > inTotal {
        assert !Funded(book, ins, outs, o);
        return Rejected(Overspending(o));
      }
    }
    return Accepted(change);
  }

  class TxRecord {
    const ins: seq<In>
    var outs: seq<Out>
  }

  class WorkBlock {
    const book: Book
    const hashOf: (seq<In>, seq<Out>) -> Id
    const used: In -> bool
    const signedFor: (In, Out, Id) -> bool

    constructor (book: Book, hashOf: (seq<In>, seq<Out>) -> Id, used: In -> bool, signedFor: (In, Out, Id) -> bool)
      ensures this.book == book && this.hashOf == hashOf && this.used == used && this.signedFor == signedFor
    {
      this.book, this.hashOf, this.used, this.signedFor := book, hashOf, used, signedFor;
    }

    /** Every input names an output of its own transaction, spends one that exists, and carries
        a signature for both. */
    predicate Signed(x: In, outs: seq<Out>) {
      && Item(outs, x.outI).Some? && Spent(book, x).Some?
      && signedFor(x, Item(outs, x.outI).value, Spent(book, x).value.address)
    }

    /** What stops a check of an input that is not signed for. */
    function WhyUnsigned(x: In, outs: seq<Out>): Failure {
      if Item(outs, x.outI).None? then IndexOutOfRange
      else if x.tx !in book then NoSuchInput
      else if Spent(book, x).None? then IndexOutOfRange
      else FalseSignature
    }

    /** Everything a transaction is checked for. */
    ghost predicate Passes(ins: seq<In>, outs: seq<Out>) {
      && hashOf(ins, outs) !in book
      && (forall i :: 0 <= i < |ins| ==> !used(ins[i]) && Signed(ins[i], outs))
      && Resolved(book, ins)
      && !(|ins| == 0 && |outs| == 1)
      && |outs| <= |ins|
      && forall o :: 0 <= o < |outs| ==> Funded(book, ins, outs, o)
    }

    method TxInputsUsable(ins: seq<In>) returns (r: Option<Failure>)
      ensures r.None? <==> forall i :: 0 <= i < |ins| ==> !used(ins[i])
      ensures r.Some? ==> r.value == AlreadyUsed
    {
      for i := 0 to |ins|
        invariant forall k :: 0 <= k < i ==> !used(ins[k])
      {
        if used(ins[i]) {
          return Some(AlreadyUsed);
        }
      }
      return None;
    }

    method TxInputsSigned(ins: seq<In>, outs: seq<Out>) returns (r: Option<Failure>)
      ensures r.None? <==> forall i :: 0 <= i < |ins| ==> Signed(ins[i], outs)
      ensures r.Some? ==>
                exists i :: && 0 <= i < |ins| && !Signed(ins[i], outs) && r.value == WhyUnsigned(ins[i], outs)
                            && forall k :: 0 <= k < i ==> Signed(ins[k], outs)
    {
      for i := 0 to |ins|
        invariant forall k :: 0 <= k < i ==> Signed(ins[k], outs)
      {
        var output := Item(outs, ins[i].outI);
        if output.None? {
          return Some(IndexOutOfRange);
        }
        if ins[i].tx !in book {
          return Some(NoSuchInput);
        }
        var spent := Item(book[ins[i].tx], ins[i].txI);
        if spent.None? {
          return Some(IndexOutOfRange);
        }
        if !signedFor(ins[i], output.value, spent.value.address) {
          return Some(FalseSignature);
        }
      }
      return None;
    }

    /** Check a transaction, then append its change to its outputs. What is accepted is worth
        no more than its inputs, if no amount is negative; what is not is left as it was. */
    method AddTx(tx: TxRecord) returns (r: Option<Failure>)
      modifies tx
      ensures r.Some? ==> tx.outs == old(tx.outs)
      ensures r.None? <==> Passes(tx.ins, old(tx.outs))
      ensures r.None? ==>
                && tx.outs == old(tx.outs) + AsOutputs(ChangeAt(book, tx.ins, old(tx.outs), |old(tx.outs)|, 0))
                && (NonNegative(book, tx.ins, old(tx.outs)) ==> Total(tx.outs) <= Brought(book, tx.ins, |tx.ins|))
                && (NonNegative(book, tx.ins, old(tx.outs)) && NamedOnce(book, tx.ins) ==>
                      Total(tx.outs) <= Worth(book, tx.ins, |tx.ins|))
    {
      if hashOf(tx.ins, tx.outs) in book {
        return Some(AlreadyExists);
      }
      r := TxInputsUsable(tx.ins);
      if r.Some? {
        return;
      }
      r := TxInputsSigned(tx.ins, tx.outs);
      if r.Some? {
        return;
      }
      assert forall i :: 0 <= i < |tx.ins| ==> Signed(tx.ins[i], tx.outs);
      assert Resolved(book, tx.ins);
      var amounts := TxAmountsValid(book, tx.ins, tx.outs);
      match amounts
      case Coinbase => return Some(IsCoinbase);
      case Rejected(why) => return Some(why);
      case Accepted(change) =>
        if NonNegative(book, tx.ins, tx.outs) {
          NoValueCreated(book, tx.ins, tx.outs);
          WorthIsBrought(book, tx.ins, |tx.ins|);
        }
        AppendChange(tx, change);
    }

    /** One more output for every entry of the change. */
    method AppendChange(tx: TxRecord, change: Change)
      modifies tx
      ensures tx.outs == old(tx.outs) + AsOutputs(change)
    {
      var i := 0;
      while i < |change|
        invariant 0 <= i <= |change|
        invariant tx.outs == old(tx.outs) + AsOutputs(change)[..i]
      {
        AsOutputsAt(change, i);
        tx.outs := tx.outs + [Out(change[i].0, change[i].1)];
        assert AsOutputs(change)[..i + 1] == AsOutputs(change)[..i] + [AsOutputs(change)[i]];
        i := i + 1;
      }
      assert AsOutputs(change)[..i] == AsOutputs(change);
    }
  }

  lemma {:induction false} AsOutputsAt(d: Change, i: nat)
    requires i < |d|
    ensures AsOutputs(d)[i] == Out(d[i].0, d[i].1)
  {
    if i > 0 {
      AsOutputsAt(d[1..], i - 1);
    }
  }
}
