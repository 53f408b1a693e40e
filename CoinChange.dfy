/**
  Fewest bills for an amount (`dp_rec_mc`): a bottom-up table over the amounts 0..amount,
  where each entry is the least `dp[i - coin] + 1` over the denominations at most `i`.
*/
module CoinChange {
  import Text

  /** The denominations, line 3. */
  const COINS: seq<nat> := [1, 2, 5, 10, 20, 30, 50, 100]

  /** The initial value of every entry, `u32::MAX - 1` (line 7). */
  const SENTINEL: nat := 0xFFFF_FFFF - 1

  function Sum(s: seq<nat>): nat {
    if s == [] then 0 else Sum(s[..|s| - 1]) + s[|s| - 1]
  }

  /** `s` is a collection of bills, each a denomination, adding up to `i`. */
  ghost predicate MakesChange(s: seq<nat>, i: nat) {
    (forall k :: 0 <= k < |s| ==> s[k] in COINS) && Sum(s) == i
  }

  /** `m` bills suffice for `i`, and no fewer do. */
  ghost predicate Fewest(m: nat, i: nat) {
    (exists s :: MakesChange(s, i) && |s| == m) && (forall s :: MakesChange(s, i) ==> m <= |s|)
  }

  lemma CoinPositive(j: nat)
    requires j < |COINS|
    ensures COINS[j] >= 1
  {
  }

  function Min(a: nat, b: nat): (m: nat)
    ensures m <= a && m <= b && (m == a || m == b)
  {
    if a <= b then a else b
  }

  /**
    Line 18 across the first `k` denominations: the least `row[i - c] + 1` over those `c <= i`,
    starting from the sentinel. It is at most each such value and, unless it is the sentinel,
    equal to one of them.
  */
  function BestFrom(row: seq<nat>, i: nat, k: nat): (b: nat)
    requires i < |row| && k <= |COINS|
    ensures b <= SENTINEL
    ensures forall j :: 0 <= j < k && COINS[j] <= i ==> b <= row[i - COINS[j]] + 1
    ensures b == SENTINEL || exists j :: 0 <= j < k && COINS[j] <= i && b == row[i - COINS[j]] + 1
  {
    if k == 0 then SENTINEL
    else
      var b := BestFrom(row, i, k - 1);
      var c := COINS[k - 1];
      if c <= i then Min(b, row[i - c] + 1) else b
  }

  /** Row `i` depends only on the entries below `i`. */
  lemma {:induction false} BestReadsBelow(row: seq<nat>, row': seq<nat>, i: nat, k: nat)
    requires i < |row| && i < |row'| && k <= |COINS| && row[..i] == row'[..i]
    ensures BestFrom(row, i, k) == BestFrom(row', i, k)
  {
    if k > 0 {
      BestReadsBelow(row, row', i, k - 1);
      var c := COINS[k - 1];
      if c <= i {
        assert row[i - c] == row[..i][i - c];
        assert row'[i - c] == row'[..i][i - c];
      }
    }
  }

  /** Lines 15-20: fills entry `i` and leaves the others alone. */
  method FillRow(dp: array<nat>, i: nat)
    requires 1 <= i < dp.Length && dp[i] == SENTINEL
    modifies dp
    ensures dp[i] == BestFrom(old(dp[..]), i, |COINS|)
    ensures forall j :: 0 <= j < dp.Length && j != i ==> dp[j] == old(dp[j])
  {
    for k := 0 to |COINS|
      invariant dp[i] == BestFrom(old(dp[..]), i, k)
      invariant forall j :: 0 <= j < dp.Length && j != i ==> dp[j] == old(dp[j])
    {
      var coin := COINS[k];
      if coin <= i {
        dp[i] := Min(dp[i], dp[i - coin] + 1);
      }
    }
  }

  lemma SumAppend(s: seq<nat>, c: nat)
    ensures Sum(s + [c]) == Sum(s) + c
  {
    assert (s + [c])[..|s|] == s;
  }

  /** Dropping the last bill of change for `i` leaves change for the rest. */
  lemma ChangeShorten(s: seq<nat>, i: nat)
    requires MakesChange(s, i) && i >= 1
    ensures s != [] && s[|s| - 1] in COINS && s[|s| - 1] <= i
    ensures MakesChange(s[..|s| - 1], i - s[|s| - 1])
  {
  }

  lemma ChangeExtend(s: seq<nat>, i: nat, c: nat)
    requires MakesChange(s, i) && c in COINS
    ensures MakesChange(s + [c], i + c)
  {
    SumAppend(s, c);
  }

  /** Twos, and a one for an odd amount: change for `i` with `(i + 1) / 2` bills. */
  lemma {:induction false} TwosChange(i: nat) returns (s: seq<nat>)
    ensures MakesChange(s, i) && |s| == (i + 1) / 2
  {
    if i == 0 {
      s := [];
    } else if i == 1 {
      s := [1];
      assert s[..0] == [];
    } else {
      var t := TwosChange(i - 2);
      ChangeExtend(t, i - 2, 2);
      s := t + [2];
    }
  }

  /** The fewest bills are at most half the amount, rounded up. */
  lemma FewestAtMostHalf(m: nat, i: nat)
    requires Fewest(m, i)
    ensures m <= (i + 1) / 2
  {
    var s := TwosChange(i);
  }

  /** If the entries below `i` are the fewest bills for their amounts, so is row `i`. */
  lemma RowFewest(row: seq<nat>, i: nat)
    requires 1 <= i < |row| && i <= Text.U32_MAX
    requires forall j :: 0 <= j < i ==> Fewest(row[j], j)
    ensures Fewest(BestFrom(row, i, |COINS|), i)
  {
    RowAttained(row, i);
    RowLower(row, i);
  }

  /** Row `i` is the length of some change for `i`: the sentinel cannot win, as the 1 bill always applies. */
  lemma RowAttained(row: seq<nat>, i: nat)
    requires 1 <= i < |row| && i <= Text.U32_MAX
    requires forall j :: 0 <= j < i ==> Fewest(row[j], j)
    ensures exists s :: MakesChange(s, i) && |s| == BestFrom(row, i, |COINS|)
  {
    var b := BestFrom(row, i, |COINS|);
    FewestAtMostHalf(row[i - 1], i - 1);
    assert b <= row[i - COINS[0]] + 1;
    var j :| 0 <= j < |COINS| && COINS[j] <= i && b == row[i - COINS[j]] + 1;
    var c := COINS[j];
    CoinPositive(j);
    var rest := i - c;
    assert Fewest(row[rest], rest);
    var t :| MakesChange(t, rest) && |t| == row[rest];
    ChangeExtend(t, rest, c);
    assert MakesChange(t + [c], i) && |t + [c]| == b;
  }

  /** No change for `i` has fewer bills than row `i`: its last bill is one of the denominations tried. */
  lemma RowLower(row: seq<nat>, i: nat)
    requires 1 <= i < |row|
    requires forall j :: 0 <= j < i ==> Fewest(row[j], j)
    ensures forall s :: MakesChange(s, i) ==> BestFrom(row, i, |COINS|) <= |s|
  {
    var b := BestFrom(row, i, |COINS|);
    forall s | MakesChange(s, i)
      ensures b <= |s|
    {
      ChangeShorten(s, i);
      var last := s[|s| - 1];
      var k :| 0 <= k < |COINS| && COINS[k] == last;
      assert Fewest(row[i - last], i - last);
      assert row[i - last] <= |s[..|s| - 1]|;
    }
  }

  /**
    `dp_rec_mc`: the fewest bills from {1, 2, 5, 10, 20, 30, 50, 100} adding up to `amount`,
    which is at most `amount`. The table has `amount + 1` entries, so `amount` stays below `u32::MAX`.
  */
  method MinCoins(amount: nat) returns (r: nat)
    requires amount < Text.U32_MAX
    ensures Fewest(r, amount)
    ensures r <= amount
  {
    var dp := new nat[amount + 1](_ => SENTINEL);
    dp[0] := 0;
    assert MakesChange([], 0);
    for i := 1 to amount + 1
      invariant forall j :: 0 <= j < i ==> Fewest(dp[j], j)
      invariant forall j :: i <= j <= amount ==> dp[j] == SENTINEL
    {
      ghost var before := dp[..];
      FillRow(dp, i);
      RowFewest(before, i);
    }
    r := dp[amount];
    FewestAtMostHalf(r, amount);
  }
}
