/** Step 2 of the balance computation (`renderBalances`): every unordered pair of
    users found in the gross table is netted once, and a positive net becomes one
    payment from the net debtor to the net creditor.

    The traversal order of `Object.keys` is a parameter: `order` lists the
    (debtor, creditor) keys of the table in the order the nested loops meet them. */
module Settlement {
  import opened Shares
  import opened Ledger

  datatype Payment = Payment(from: UserId, to: UserId, paise: int)

  /** The default `Array.prototype.sort` comparison of two strings: lexicographic by
      character, a proper prefix coming first. */
  predicate Less(a: string, b: string)
    decreases |a|
  {
    if |a| == 0 then |b| > 0
    else if |b| == 0 then false
    else if a[0] != b[0] then a[0] < b[0]
    else Less(a[1..], b[1..])
  }

  lemma {:induction false} LessAsymmetric(a: string, b: string)
    ensures !(Less(a, b) && Less(b, a))
    decreases |a|
  {
    if |a| > 0 && |b| > 0 && a[0] == b[0] {
      LessAsymmetric(a[1..], b[1..]);
    }
  }

  lemma {:induction false} LessTotal(a: string, b: string)
    requires a != b
    ensures Less(a, b) || Less(b, a)
    decreases |a|
  {
    if |a| > 0 && |b| > 0 && a[0] == b[0] {
      assert a == [a[0]] + a[1..] && b == [b[0]] + b[1..];
      LessTotal(a[1..], b[1..]);
    }
  }

  /** `[a, b].sort()`. */
  function SortPair(a: UserId, b: UserId): (UserId, UserId) {
    if Less(b, a) then (b, a) else (a, b)
  }

  /** The sorted pair names the same two users, whichever comes first. */
  lemma {:induction false} SortPairSymmetric(a: UserId, b: UserId)
    ensures SortPair(a, b) == SortPair(b, a)
    ensures SortPair(a, b) == (a, b) || SortPair(a, b) == (b, a)
  {
    LessAsymmetric(a, b);
    if a != b {
      LessTotal(a, b);
    }
  }

  /** `[a, b].sort().join('-')`, the key of the `processed` table. */
  function PairKey(a: UserId, b: UserId): string {
    var s := SortPair(a, b);
    s.0 + "-" + s.1
  }

  function PaymentKey(p: Payment): string {
    PairKey(p.from, p.to)
  }

  predicate NoDash(s: string) {
    forall i :: 0 <= i < |s| ==> s[i] != '-'
  }

  /** Joining with `-` loses nothing when the left part holds no `-`. */
  lemma {:induction false} JoinInjective(x: string, y: string, u: string, v: string)
    requires NoDash(x) && NoDash(u) && x + "-" + y == u + "-" + v
    ensures x == u && y == v
  {
    var s := x + "-" + y;
    assert s[|x|] == '-';
    assert (u + "-" + v)[|u|] == '-';
    assert forall j :: 0 <= j < |x| ==> s[j] == x[j];
    assert forall j :: 0 <= j < |u| ==> s[j] == u[j];
    assert |x| == |u|;
    assert x == s[..|x|] && u == s[..|u|];
    assert y == s[|x| + 1..] && v == (u + "-" + v)[|u| + 1..];
  }

  /** For ids without `-`, equal keys mean the same two users. */
  lemma {:induction false} PairKeyInjective(a: UserId, b: UserId, c: UserId, d: UserId)
    requires NoDash(a) && NoDash(b) && NoDash(c) && NoDash(d)
    requires PairKey(a, b) == PairKey(c, d)
    ensures (a == c && b == d) || (a == d && b == c)
  {
    SortPairSymmetric(a, b);
    SortPairSymmetric(c, d);
    var s, t := SortPair(a, b), SortPair(c, d);
    JoinInjective(s.0, s.1, t.0, t.1);
  }

  /** The same two users, in either direction. */
  predicate SamePair(p: Payment, q: Payment) {
    (p.from == q.from && p.to == q.to) || (p.from == q.to && p.to == q.from)
  }

  /** `debtorOwes - creditorOwes`. */
  function Net(d: Debts, a: UserId, b: UserId): int {
    Get(d, (a, b)) - Get(d, (b, a))
  }

  /** A correct settlement line: a positive amount equal to the net debt of `from`
      towards `to`, between two users met by the traversal. */
  predicate Settles(d: Debts, order: seq<(UserId, UserId)>, p: Payment) {
    && p.paise > 0
    && p.paise == Net(d, p.from, p.to)
    && ((p.from, p.to) in order || (p.to, p.from) in order)
  }

  /** The keys the traversal marks as processed. */
  function KeysOf(order: seq<(UserId, UserId)>): set<string> {
    if |order| == 0 then {}
    else KeysOf(order[..|order| - 1]) + {PairKey(order[|order| - 1].0, order[|order| - 1].1)}
  }

  /** The loop state: the `processed` table and `simplifiedBalances`. */
  datatype Pass = Pass(processed: set<string>, out: seq<Payment>)

  /** One iteration of the inner loop, for the key (`pair.0`, `pair.1`). */
  function Visit(d: Debts, st: Pass, pair: (UserId, UserId)): (r: Pass)
    ensures r.processed == st.processed + {PairKey(pair.0, pair.1)}
    ensures |st.out| <= |r.out| <= |st.out| + 1 && r.out[..|st.out|] == st.out
    ensures PairKey(pair.0, pair.1) in st.processed ==> r.out == st.out
  {
    var (debtor, creditor) := pair;
    var key := PairKey(debtor, creditor);
    if key in st.processed then st
    else
      var net := Net(d, debtor, creditor);
      var out :=
        if net > 0 then st.out + [Payment(debtor, creditor, net)]
        else if net < 0 then st.out + [Payment(creditor, debtor, -net)]
        else st.out;
      Pass(st.processed + {key}, out)
  }

  /** The nested `Object.keys` loops over the traversal `order`. */
  function Walk(d: Debts, order: seq<(UserId, UserId)>): (r: Pass)
    ensures r.processed == KeysOf(order)
    ensures forall i :: 0 <= i < |r.out| ==> Settles(d, order, r.out[i])
    ensures forall i :: 0 <= i < |r.out| ==> PaymentKey(r.out[i]) in r.processed
    ensures forall i, j :: 0 <= i < j < |r.out| ==> PaymentKey(r.out[i]) != PaymentKey(r.out[j])
    decreases |order|
  {
    if |order| == 0 then Pass({}, [])
    else
      var init := order[..|order| - 1];
      var pair := order[|order| - 1];
      var st := Walk(d, init);
      var r := Visit(d, st, pair);
      VisitStep(d, order, st, r);
      r
  }

  /** The loop invariant of the traversal survives one more key. */
  lemma {:induction false} VisitStep(d: Debts, order: seq<(UserId, UserId)>, st: Pass, r: Pass)
    requires |order| > 0 && r == Visit(d, st, order[|order| - 1])
    requires st.processed == KeysOf(order[..|order| - 1])
    requires forall i :: 0 <= i < |st.out| ==> Settles(d, order[..|order| - 1], st.out[i])
    requires forall i :: 0 <= i < |st.out| ==> PaymentKey(st.out[i]) in st.processed
    requires forall i, j :: 0 <= i < j < |st.out| ==> PaymentKey(st.out[i]) != PaymentKey(st.out[j])
    ensures r.processed == KeysOf(order)
    ensures forall i :: 0 <= i < |r.out| ==> Settles(d, order, r.out[i])
    ensures forall i :: 0 <= i < |r.out| ==> PaymentKey(r.out[i]) in r.processed
    ensures forall i, j :: 0 <= i < j < |r.out| ==> PaymentKey(r.out[i]) != PaymentKey(r.out[j])
  {
    var init := order[..|order| - 1];
    var pair := order[|order| - 1];
    assert forall x :: x in init ==> x in order;
    SortPairSymmetric(pair.0, pair.1);
    assert forall i :: 0 <= i < |st.out| ==> r.out[i] == st.out[i];
  }

  /** Step 2 of `renderBalances`: the simplified balances. */
  function Simplify(d: Debts, order: seq<(UserId, UserId)>): (r: seq<Payment>)
    ensures forall i :: 0 <= i < |r| ==> Settles(d, order, r[i])
    ensures forall i, j :: 0 <= i < j < |r| ==> !SamePair(r[i], r[j])
  {
    var r := Walk(d, order).out;
    assert forall i, j :: 0 <= i < j < |r| && SamePair(r[i], r[j]) ==> PaymentKey(r[i]) == PaymentKey(r[j]) by {
      forall i, j | 0 <= i < j < |r| && SamePair(r[i], r[j])
        ensures PaymentKey(r[i]) == PaymentKey(r[j])
      {
        SortPairSymmetric(r[i].from, r[i].to);
      }
    }
    r
  }

  /** Every id met by the traversal is free of `-`. */
  predicate DashFree(order: seq<(UserId, UserId)>) {
    forall j :: 0 <= j < |order| ==> NoDash(order[j].0) && NoDash(order[j].1)
  }

  lemma {:induction false} KeysOfMember(order: seq<(UserId, UserId)>, k: string)
    requires k in KeysOf(order)
    ensures exists j :: 0 <= j < |order| && PairKey(order[j].0, order[j].1) == k
  {
    var init := order[..|order| - 1];
    if k in KeysOf(init) {
      KeysOfMember(init, k);
      var j :| 0 <= j < |init| && PairKey(init[j].0, init[j].1) == k;
      assert order[j] == init[j];
    }
  }

  /** With dash-free ids, every pair met by the traversal whose net is not zero gets
      its payment, directed from the net debtor. */
  lemma {:induction false} WalkComplete(d: Debts, order: seq<(UserId, UserId)>, a: UserId, b: UserId)
    requires DashFree(order)
    requires (a, b) in order || (b, a) in order
    requires Net(d, a, b) > 0
    ensures Payment(a, b, Net(d, a, b)) in Walk(d, order).out
    decreases |order|
  {
    var init := order[..|order| - 1];
    var pair := order[|order| - 1];
    var st := Walk(d, init);
    assert Walk(d, order) == Visit(d, st, pair);
    DashFreePrefix(order);
    if (a, b) in init || (b, a) in init {
      WalkComplete(d, init, a, b);
      VisitKeeps(d, st, pair, Payment(a, b, Net(d, a, b)));
    } else {
      assert pair == (a, b) || pair == (b, a);
      FreshKey(init, pair);
      VisitAdds(d, st, pair, a, b);
    }
  }

  lemma {:induction false} DashFreePrefix(order: seq<(UserId, UserId)>)
    requires DashFree(order) && |order| > 0
    ensures DashFree(order[..|order| - 1])
    ensures NoDash(order[|order| - 1].0) && NoDash(order[|order| - 1].1)
  {
    var init := order[..|order| - 1];
    forall j | 0 <= j < |init| ensures NoDash(init[j].0) && NoDash(init[j].1) {
      assert init[j] == order[j];
    }
  }

  /** A pair met for the first time, in neither direction, has a key not yet processed. */
  lemma {:induction false} FreshKey(init: seq<(UserId, UserId)>, pair: (UserId, UserId))
    requires DashFree(init) && NoDash(pair.0) && NoDash(pair.1)
    requires pair !in init && (pair.1, pair.0) !in init
    ensures PairKey(pair.0, pair.1) !in KeysOf(init)
  {
    var key := PairKey(pair.0, pair.1);
    if key in KeysOf(init) {
      KeysOfMember(init, key);
      var j :| 0 <= j < |init| && PairKey(init[j].0, init[j].1) == key;
      PairKeyInjective(init[j].0, init[j].1, pair.0, pair.1);
      assert false;
    }
  }

  lemma {:induction false} VisitKeeps(d: Debts, st: Pass, pair: (UserId, UserId), p: Payment)
    requires p in st.out
    ensures p in Visit(d, st, pair).out
  {
    var r := Visit(d, st, pair);
    var i :| 0 <= i < |st.out| && st.out[i] == p;
    assert r.out[..|st.out|][i] == p;
  }

  lemma {:induction false} VisitAdds(d: Debts, st: Pass, pair: (UserId, UserId), a: UserId, b: UserId)
    requires PairKey(pair.0, pair.1) !in st.processed
    requires pair == (a, b) || pair == (b, a)
    requires Net(d, a, b) > 0
    ensures Payment(a, b, Net(d, a, b)) in Visit(d, st, pair).out
  {
    var r := Visit(d, st, pair);
    assert r.out == st.out + [Payment(a, b, Net(d, a, b))];
    assert r.out[|st.out|] == Payment(a, b, Net(d, a, b));
  }

  /** With dash-free ids the output is exactly the set of correct settlement lines. */
  lemma {:induction false} SimplifyExact(d: Debts, order: seq<(UserId, UserId)>, p: Payment)
    requires DashFree(order)
    ensures p in Simplify(d, order) <==> Settles(d, order, p)
  {
    if Settles(d, order, p) {
      WalkComplete(d, order, p.from, p.to);
    }
  }

  /** Users whose debts cancel never appear together in the output. */
  lemma {:induction false} ZeroNetOmitted(d: Debts, order: seq<(UserId, UserId)>, a: UserId, b: UserId)
    requires Net(d, a, b) == 0
    ensures forall p :: p in Simplify(d, order) ==> !SamePair(p, Payment(a, b, 0))
  {
  }

  /** Ids holding `-` can collide: "1-2" with "3" and "1" with "2-3" share the key
      "1-2-3", so the second pair is never netted and its debt disappears. */
  lemma {:induction false} DashCollision()
    ensures PairKey("1-2", "3") == PairKey("1", "2-3")
    ensures Simplify(map[("1-2", "3") := 5, ("1", "2-3") := 7], [("1-2", "3"), ("1", "2-3")])
         == [Payment("1-2", "3", 5)]
  {
    assert Less("1-2", "3");
    assert Less("1", "2-3");
    var d := map[("1-2", "3") := 5, ("1", "2-3") := 7];
    var order := [("1-2", "3"), ("1", "2-3")];
    assert order[..1] == [("1-2", "3")];
    assert order[..1][..0] == [];
    assert Net(d, "1-2", "3") == 5;
    var o1 := order[..1];
    assert Walk(d, o1[..0]) == Pass({}, []);
    var first := Walk(d, o1);
    assert first == Visit(d, Pass({}, []), ("1-2", "3"));
    assert !Less("3", "1-2");
    assert PairKey("1-2", "3") == "1-2-3";
    assert first == Pass({"1-2-3"}, [Payment("1-2", "3", 5)]);
    assert Walk(d, order) == Visit(d, first, ("1", "2-3"));
  }

  /** The whole balance computation: accumulate, then simplify. */
  function Balances(es: seq<Expense>, order: seq<(UserId, UserId)>): (r: seq<Payment>)
    ensures forall i, j :: 0 <= i < j < |r| ==> !SamePair(r[i], r[j])
  {
    Simplify(Accumulate(es), order)
  }

  /** When the traversal lists the keys of the gross table and ids hold no `-`, the
      output holds exactly one payment per pair of users with a non-zero net, for the
      net of what each owes the other over all expenses. */
  lemma {:induction false} BalancesExact(es: seq<Expense>, order: seq<(UserId, UserId)>, p: Payment)
    requires forall k :: k in order <==> k in Accumulate(es)
    requires DashFree(order)
    ensures p in Balances(es, order) <==>
              && p.paise > 0
              && p.paise == GrossOwed(es, p.from, p.to) - GrossOwed(es, p.to, p.from)
              && (Involved(es, p.from, p.to) || Involved(es, p.to, p.from))
  {
    SimplifyExact(Accumulate(es), order, p);
  }
}
