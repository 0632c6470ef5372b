/** The equal split of one expense among its participants (`computeEqualShares`).
    Every participant gets the truncated quotient of the amount by the head count;
    the first `amount % n` of them, in the order given, get one paisa more. */
module Shares {
  import opened BigInt

  type UserId = string

  /** No participant is listed twice. */
  predicate Distinct(ps: seq<UserId>) {
    forall i, j :: 0 <= i < j < |ps| ==> ps[i] != ps[j]
  }

  /** `i` is the last position at which `ps[i]` occurs. */
  predicate LastOccurrence(ps: seq<UserId>, i: int)
    requires 0 <= i < |ps|
  {
    forall j :: i < j < |ps| ==> ps[j] != ps[i]
  }


  /** The extra paisa the participant at position `i` receives. */
  function Bonus(i: int, rem: int): int {
    if i < rem then 1 else 0
  }

  /** A share table's entry, 0 when the participant has none (`shares[p] || 0n`). */
  function Lookup(m: map<UserId, int>, p: UserId): int {
    if p in m then m[p] else 0
  }

  /** Position `i` is the last occurrence of `ps[i]` among the first `n` positions. */
  predicate LastBefore(ps: seq<UserId>, n: nat, i: nat)
    requires i < n <= |ps|
  {
    forall j :: i < j < n ==> ps[j] != ps[i]
  }

  /** The table after the first `n` participants have been assigned; a participant
      listed twice keeps the value of its later position, as an object key would. */
  function Assign(ps: seq<UserId>, n: nat, base: int, rem: int): (r: map<UserId, int>)
    requires n <= |ps|
    ensures forall p :: p in r <==> p in ps[..n]
    ensures forall i :: 0 <= i < n && LastBefore(ps, n, i) ==> r[ps[i]] == base + Bonus(i, rem)
  {
    if n == 0 then map[]
    else
      var prev := Assign(ps, n - 1, base, rem);
      var r := prev[ps[n - 1] := base + Bonus(n - 1, rem)];
      AssignStep(ps, n, base, rem, prev, r);
      r
  }

  lemma {:induction false} AssignStep(ps: seq<UserId>, n: nat, base: int, rem: int,
                                      prev: map<UserId, int>, r: map<UserId, int>)
    requires 0 < n <= |ps|
    requires forall p :: p in prev <==> p in ps[..n - 1]
    requires forall i :: 0 <= i < n - 1 && LastBefore(ps, n - 1, i) ==> prev[ps[i]] == base + Bonus(i, rem)
    requires r == prev[ps[n - 1] := base + Bonus(n - 1, rem)]
    ensures forall p :: p in r <==> p in ps[..n]
    ensures forall i :: 0 <= i < n && LastBefore(ps, n, i) ==> r[ps[i]] == base + Bonus(i, rem)
  {
    assert ps[..n] == ps[..n - 1] + [ps[n - 1]];
    forall i | 0 <= i < n && LastBefore(ps, n, i)
      ensures r[ps[i]] == base + Bonus(i, rem)
    {
      if i < n - 1 {
        assert ps[n - 1] != ps[i];
        assert LastBefore(ps, n - 1, i);
      }
    }
  }

  /** `computeEqualShares(amount, ps)`. */
  function EqualShares(amount: int, ps: seq<UserId>): (r: map<UserId, int>)
    ensures ps == [] ==> r == map[]
    ensures forall p :: p in r <==> p in ps
    ensures forall i :: 0 <= i < |ps| && LastOccurrence(ps, i)
                        ==> r[ps[i]] == TDiv(amount, |ps|) + Bonus(i, TRem(amount, |ps|))
  {
    if ps == [] then map[]
    else
      assert ps[..|ps|] == ps;
      Assign(ps, |ps|, TDiv(amount, |ps|), TRem(amount, |ps|))
  }

  /** The sum of the shares of the listed participants, each occurrence counted. */
  function SumShares(ps: seq<UserId>, m: map<UserId, int>): int {
    if ps == [] then 0 else SumShares(ps[..|ps| - 1], m) + Lookup(m, ps[|ps| - 1])
  }

  /** How many of the first `k` positions earn the extra paisa. */
  function BonusCount(k: nat, rem: int): nat {
    if rem <= 0 then 0 else if k < rem then k else rem
  }

  /** How often `x` is listed. */
  function Count(ps: seq<UserId>, x: UserId): (c: nat)
    ensures c <= |ps|
    ensures c > 0 <==> x in ps
  {
    if ps == [] then 0
    else
      assert forall y :: y in ps <==> y in ps[..|ps| - 1] || y == ps[|ps| - 1];
      Count(ps[..|ps| - 1], x) + (if ps[|ps| - 1] == x then 1 else 0)
  }

  /** A duplicate-free list holds each of its members exactly once. */
  lemma {:induction false} DistinctCount(ps: seq<UserId>, x: UserId)
    requires Distinct(ps)
    ensures Count(ps, x) == if x in ps then 1 else 0
  {
    if ps != [] {
      var init := ps[..|ps| - 1];
      assert Distinct(init);
      DistinctCount(init, x);
      if ps[|ps| - 1] == x {
        assert x !in init;
      }
    }
  }

  /** For distinct participants every position is a last occurrence. */
  lemma {:induction false} DistinctLast(ps: seq<UserId>, i: int)
    requires Distinct(ps) && 0 <= i < |ps|
    ensures LastOccurrence(ps, i)
  {
  }

  /** Each participant receives the base share or one paisa more, the latter
      exactly when its position is below the remainder. */
  lemma {:induction false} ShareIsBaseOrOneMore(amount: int, ps: seq<UserId>, i: int)
    requires Distinct(ps) && 0 <= i < |ps|
    ensures EqualShares(amount, ps)[ps[i]] == TDiv(amount, |ps|)
         || EqualShares(amount, ps)[ps[i]] == TDiv(amount, |ps|) + 1
    ensures EqualShares(amount, ps)[ps[i]] == TDiv(amount, |ps|) + 1 <==> i < TRem(amount, |ps|)
  {
    DistinctLast(ps, i);
  }

  /** The first `k` entries of a table that gives position `i` the base share plus
      its bonus add up to `k` base shares plus the extra paise handed out so far. */
  lemma {:induction false} PrefixSum(ps: seq<UserId>, m: map<UserId, int>, base: int, rem: int, k: nat)
    requires k <= |ps|
    requires forall i :: 0 <= i < |ps| ==> Lookup(m, ps[i]) == base + Bonus(i, rem)
    ensures SumShares(ps[..k], m) == k * base + BonusCount(k, rem)
  {
    if k > 0 {
      assert ps[..k][..k - 1] == ps[..k - 1];
      PrefixSum(ps, m, base, rem, k - 1);
      assert Lookup(m, ps[k - 1]) == base + Bonus(k - 1, rem);
      assert BonusCount(k, rem) == BonusCount(k - 1, rem) + Bonus(k - 1, rem);
      assert k * base == (k - 1) * base + base;
    }
  }

  /** The whole split adds up to `n` base shares plus the positive part of the remainder. */
  lemma {:induction false} SharesSum(amount: int, ps: seq<UserId>)
    requires Distinct(ps) && 0 < |ps|
    ensures SumShares(ps, EqualShares(amount, ps))
         == |ps| * TDiv(amount, |ps|) + (if TRem(amount, |ps|) > 0 then TRem(amount, |ps|) else 0)
  {
    var m := EqualShares(amount, ps);
    forall i | 0 <= i < |ps|
      ensures Lookup(m, ps[i]) == TDiv(amount, |ps|) + Bonus(i, TRem(amount, |ps|))
    {
      DistinctLast(ps, i);
    }
    PrefixSum(ps, m, TDiv(amount, |ps|), TRem(amount, |ps|), |ps|);
    assert ps[..|ps|] == ps;
  }

  /** The split conserves the amount exactly when the amount is not negative or
      divides evenly; a negative amount loses its (negative) remainder. */
  lemma {:induction false} ConservesIff(amount: int, ps: seq<UserId>)
    requires Distinct(ps) && 0 < |ps|
    ensures SumShares(ps, EqualShares(amount, ps)) == amount
        <==> amount >= 0 || TRem(amount, |ps|) == 0
  {
    SharesSum(amount, ps);
  }

  /** Every paisa of a non-negative amount is assigned to someone. */
  lemma {:induction false} Conserves(amount: int, ps: seq<UserId>)
    requires Distinct(ps) && 0 < |ps| && amount >= 0
    ensures SumShares(ps, EqualShares(amount, ps)) == amount
  {
    ConservesIff(amount, ps);
  }
}
