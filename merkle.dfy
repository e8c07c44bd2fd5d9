/** The settlement functions of `merkle.ts`: the leaf hash of one payout,
    the leaf table and tree over a battle result, proofs as hex strings, the
    winner of a list of wallet snapshots, and the proportional payouts to
    the bettors who picked that winner. */
module Merkle {
  import opened Wrappers
  import opened Encoding
  import opened Sorting
  import opened MerkleTree

  // ---------------------------------------------------------------------
  // Data
  // ---------------------------------------------------------------------

  /** One player's wallet performance over the battle. */
  datatype WalletSnapshot = WalletSnapshot(
    player: string,
    totalValue: real,
    percentageChange: real,
    rank: int,
    timestamp: int)

  /** The ranking key. */
  function PercentageChange(s: WalletSnapshot): real {
    s.percentageChange
  }

  /** A stake, in minor units; stakes are positive integers. */
  type Stake = n: nat | n > 0 witness 1

  datatype Bet = Bet(bettor: string, predictedWinner: string, amount: Stake)

  datatype Payout = Payout(bettor: string, amount: nat)

  datatype BattleResult = BattleResult(
    battleId: string,
    winner: string,
    winnerAmount: nat,
    bettingPayouts: seq<Payout>)

  /** A row of the leaf table: a recipient, an amount and the leaf hash. */
  datatype Leaf = Leaf(player: string, amount: nat, hash: Digest)

  /** What `generateMerkleTree` returns: the tree, its root in hex, and the
      leaf table. */
  datatype Commitment = Commitment(tree: Tree, root: string, leaves: seq<Leaf>)

  /** Why a settlement fails: `calculateWinner` on an empty list reads
      `sorted[0].player` of `undefined` and throws, and the content store can
      reject the upload of the record. */
  datatype SettleError = NoParticipants | UploadFailed(reason: string)

  // ---------------------------------------------------------------------
  // Leaf hashing
  // ---------------------------------------------------------------------

  /** Width of the zero-padded decimal amount in a leaf. */
  const AmountWidth: nat := 32

  /** The amount as decimal text, zero-padded on the left to 32 characters. */
  function AmountField(amount: nat): string {
    PadStart(Decimal(amount), AmountWidth, '0')
  }

  /** The bytes a leaf hash is taken over: the player's bytes, then the
      amount field's bytes. */
  function LeafEncoding(player: string, amount: nat): seq<byte> {
    Utf8(player) + Utf8(AmountField(amount))
  }

  /** `hashLeaf({player, amount})`. */
  function HashLeaf(h: Hasher, player: string, amount: nat): Digest {
    h(LeafEncoding(player, amount))
  }

  /** A leaf hash is the hash of the player's bytes followed by a field of at
      least 32 decimal digits that reads back as the amount. */
  lemma HashLeafInput(h: Hasher, player: string, amount: nat)
    ensures exists field ::
      && HashLeaf(h, player, amount) == h(Utf8(player) + Utf8(field))
      && |field| >= AmountWidth && AllDigits(field) && ParseDecimal(field) == amount
  {
    AmountFieldDigits(amount);
    var field := AmountField(amount);
    assert |field| >= AmountWidth;
    assert HashLeaf(h, player, amount) == h(Utf8(player) + Utf8(field));
  }

  lemma AmountFieldDigits(amount: nat)
    ensures IsAscii(AmountField(amount)) && AllDigits(AmountField(amount))
    ensures ParseDecimal(AmountField(amount)) == amount
  {
    PaddedDecimalRoundTrip(amount, AmountWidth);
  }

  /** The bytes of the amount field: one ASCII decimal digit per character. */
  lemma AmountFieldBytes(amount: nat)
    ensures var q := Utf8(AmountField(amount));
      && |q| == (if |Decimal(amount)| < AmountWidth then AmountWidth else |Decimal(amount)|)
      && forall k :: 0 <= k < |q| ==> '0' as int <= q[k] <= '9' as int
  {
    var f := AmountField(amount);
    AmountFieldDigits(amount);
    Utf8Ascii(f);
  }

  /** A leaf hashes the player's UTF-8 bytes followed by exactly
      max(32, digits) ASCII decimal digits, which read back as the amount; a
      longer decimal is kept whole, not truncated. */
  lemma LeafEncodingLayout(player: string, amount: nat)
    ensures var e, p := LeafEncoding(player, amount), Utf8(player);
      && e[..|p|] == p
      && |e| == |p| + (if |Decimal(amount)| < AmountWidth then AmountWidth else |Decimal(amount)|)
      && (forall i :: |p| <= i < |e| ==> '0' as int <= e[i] <= '9' as int)
      && e[|p|..] == Utf8(AmountField(amount))
      && ParseDecimal(AmountField(amount)) == amount
  {
    AmountFieldDigits(amount);
    AmountFieldBytes(amount);
    var e, p, q := LeafEncoding(player, amount), Utf8(player), Utf8(AmountField(amount));
    assert e[..|p|] == p;
    assert e[|p|..] == q;
    forall i | |p| <= i < |e| ensures '0' as int <= e[i] <= '9' as int {
      assert e[i] == q[i - |p|];
    }
  }

  /** For one player, the encoded leaf determines the amount. */
  lemma LeafEncodingDeterminesAmount(player: string, a: nat, b: nat)
    requires LeafEncoding(player, a) == LeafEncoding(player, b)
    ensures a == b
  {
    var p := Utf8(player);
    var ea, eb := LeafEncoding(player, a), LeafEncoding(player, b);
    assert Utf8(AmountField(a)) == ea[|p|..] == eb[|p|..] == Utf8(AmountField(b));
    AmountFieldDigits(a);
    AmountFieldDigits(b);
    Utf8AsciiInjective(AmountField(a), AmountField(b));
  }

  // ---------------------------------------------------------------------
  // Leaf table, tree and proofs
  // ---------------------------------------------------------------------

  /** `allPayouts`: the winner's entry, then one entry per betting payout. */
  function PayoutEntries(result: BattleResult): seq<(string, nat)> {
    var bp := result.bettingPayouts;
    [(result.winner, result.winnerAmount)]
      + seq(|bp|, i requires 0 <= i < |bp| => (bp[i].bettor, bp[i].amount))
  }

  /** The leaf table: each entry of `allPayouts` with its own leaf hash. */
  function LeafTable(h: Hasher, result: BattleResult): (leaves: seq<Leaf>)
    ensures |leaves| == 1 + |result.bettingPayouts|
    ensures leaves[0].player == result.winner && leaves[0].amount == result.winnerAmount
    ensures forall i :: 0 <= i < |result.bettingPayouts| ==>
      leaves[i + 1].player == result.bettingPayouts[i].bettor
      && leaves[i + 1].amount == result.bettingPayouts[i].amount
    ensures forall i :: 0 <= i < |leaves| ==>
      leaves[i].hash == HashLeaf(h, leaves[i].player, leaves[i].amount)
  {
    var all := PayoutEntries(result);
    seq(|all|, i requires 0 <= i < |all| => Leaf(all[i].0, all[i].1, HashLeaf(h, all[i].0, all[i].1)))
  }

  /** `leaves.map(l => l.hash)`. */
  function LeafHashes(leaves: seq<Leaf>): (hs: seq<seq<byte>>)
    ensures |hs| == |leaves|
    ensures forall i :: 0 <= i < |leaves| ==> hs[i] == leaves[i].hash
  {
    seq(|leaves|, i requires 0 <= i < |leaves| => leaves[i].hash)
  }

  /** `generateMerkleTree(battleResult)`: the leaf table, the sorted-pair tree
      over its hashes, and the root as 64 hex characters that decode to the
      tree's root. */
  function GenerateMerkleTree(h: Hasher, result: BattleResult): (c: Commitment)
    ensures c.leaves == LeafTable(h, result)
    ensures c.tree == Build(h, LeafHashes(c.leaves))
    ensures IsHex(c.root) && IsLowerHex(c.root) && |c.root| == 64
    ensures Unhex(c.root) == GetRoot(c.tree)
  {
    var leaves := LeafTable(h, result);
    var tree := Build(h, LeafHashes(leaves));
    RootIsDigest(h, LeafHashes(leaves));
    UnhexHex(GetRoot(tree));
    Commitment(tree, Hex(GetRoot(tree)), leaves)
  }

  /** `getMerkleProof(tree, leafHash)`: the proof elements as hex strings,
      each decoding to the corresponding element of `tree.getProof`. */
  function GetMerkleProof(tree: Tree, leafHash: seq<byte>): (r: seq<string>)
    ensures var p := GetProof(tree, leafHash);
      |r| == |p| && forall i :: 0 <= i < |r| ==> IsHex(r[i]) && IsLowerHex(r[i]) && Unhex(r[i]) == p[i]
  {
    var p := GetProof(tree, leafHash);
    forall i | 0 <= i < |p| ensures Unhex(Hex(p[i])) == p[i] {
      UnhexHex(p[i]);
    }
    seq(|p|, i requires 0 <= i < |p| => Hex(p[i]))
  }

  /** What a verifier does with a hex proof: decode each element. */
  function UnhexAll(ss: seq<string>): (bs: seq<seq<byte>>)
    requires forall i :: 0 <= i < |ss| ==> IsHex(ss[i])
    ensures |bs| == |ss|
  {
    seq(|ss|, i requires 0 <= i < |ss| => Unhex(ss[i]))
  }

  /** The proof round trip for a battle result: for every row of the leaf
      table, decoding the hex proof and folding it from the row's hash with
      the sorted-pair rule gives the decoded root. */
  lemma MerkleProofRoundTrip(h: Hasher, result: BattleResult, i: nat)
    requires i <= |result.bettingPayouts|
    ensures var c := GenerateMerkleTree(h, result);
      Verify(h, UnhexAll(GetMerkleProof(c.tree, c.leaves[i].hash)), c.leaves[i].hash, Unhex(c.root))
  {
    var c := GenerateMerkleTree(h, result);
    var hs := LeafHashes(c.leaves);
    var leaf := c.leaves[i].hash;
    assert hs[i] == leaf;
    GetProofVerifies(h, hs, leaf);
    assert UnhexAll(GetMerkleProof(c.tree, leaf)) == GetProof(c.tree, leaf);
  }

  // ---------------------------------------------------------------------
  // Winner
  // ---------------------------------------------------------------------

  /** `calculateWinner(snapshots)`: the player first in a stable descending
      sort of a copy, i.e. the earliest player with the largest change; no
      snapshots is an error. */
  function CalculateWinner(snapshots: seq<WalletSnapshot>): (r: Result<string, SettleError>)
    ensures r.Failure? <==> snapshots == []
    ensures r.Success? ==>
      r.value == snapshots[FirstMaxIndex(snapshots, PercentageChange)].player
  {
    if snapshots == [] then Failure(NoParticipants)
    else
      SortDescHead(snapshots, PercentageChange);
      Success(SortDesc(snapshots, PercentageChange)[0].player)
  }

  /** On snapshots already ranked, the winner is the player ranked first. */
  lemma WinnerOfRanked(snapshots: seq<WalletSnapshot>)
    requires |snapshots| > 0 && SortedDesc(snapshots, PercentageChange)
    ensures CalculateWinner(snapshots) == Success(snapshots[0].player)
  {
    SortedHead(snapshots, PercentageChange);
  }

  // ---------------------------------------------------------------------
  // Betting payouts
  // ---------------------------------------------------------------------

  /** `bets.filter(b => b.predictedWinner === actualWinner)`. */
  function CorrectBets(bets: seq<Bet>, winner: string): (r: seq<Bet>)
    ensures |r| <= |bets|
    ensures forall i :: 0 <= i < |r| ==> r[i] in bets && r[i].predictedWinner == winner
    ensures forall b :: b in bets && b.predictedWinner == winner ==> b in r
  {
    if bets == [] then []
    else (if bets[0].predictedWinner == winner then [bets[0]] else []) + CorrectBets(bets[1..], winner)
  }

  /** Filtering two runs of bets is filtering each in turn: the correct bets
      keep the order of the input. */
  lemma {:induction false} CorrectBetsConcat(a: seq<Bet>, b: seq<Bet>, winner: string)
    ensures CorrectBets(a + b, winner) == CorrectBets(a, winner) + CorrectBets(b, winner)
  {
    if a == [] {
      assert a + b == b;
    } else {
      assert (a + b)[0] == a[0] && (a + b)[1..] == a[1..] + b;
      CorrectBetsConcat(a[1..], b, winner);
    }
  }

  /** A single bet is kept, once, exactly when it names the winner. */
  lemma CorrectBetsOne(b: Bet, winner: string)
    ensures CorrectBets([b], winner) == if b.predictedWinner == winner then [b] else []
  {
    assert [b][1..] == [];
  }

  /** The sum of the stakes. */
  function TotalStake(bets: seq<Bet>): (t: nat)
    ensures bets != [] ==> t > 0
  {
    if bets == [] then 0 else bets[0].amount + TotalStake(bets[1..])
  }

  function TotalPaid(payouts: seq<Payout>): nat {
    if payouts == [] then 0 else payouts[0].amount + TotalPaid(payouts[1..])
  }

  /** Each correct bet's share of the whole pool, rounded down. */
  function ScaledPayouts(correct: seq<Bet>, totalPool: nat, totalCorrect: nat): (r: seq<Payout>)
    requires totalCorrect > 0
    ensures |r| == |correct|
    ensures forall i :: 0 <= i < |r| ==>
      r[i] == Payout(correct[i].bettor, correct[i].amount * totalPool / totalCorrect)
  {
    if correct == [] then []
    else
      [Payout(correct[0].bettor, correct[0].amount * totalPool / totalCorrect)]
        + ScaledPayouts(correct[1..], totalPool, totalCorrect)
  }

  /** `calculateBettingPayouts(bets, actualWinner)`: nothing when no bet named
      the winner; otherwise one payout per correct bet, in order, of
      floor(stake * pool / correct stakes), never more than the pool in all. */
  function CalculateBettingPayouts(bets: seq<Bet>, winner: string): (r: seq<Payout>)
    ensures r == [] <==> forall i :: 0 <= i < |bets| ==> bets[i].predictedWinner != winner
    ensures TotalPaid(r) <= TotalStake(bets)
  {
    var correct := CorrectBets(bets, winner);
    if correct == [] then []
    else
      var totalCorrect := TotalStake(correct);
      var totalPool := TotalStake(bets);
      PaidWithinShare(correct, totalPool, totalCorrect);
      CorrectStakesWithinPool(bets, winner);
      MulDivCancel(totalPool, totalCorrect);
      ScaledPayouts(correct, totalPool, totalCorrect)
  }

  /** When some bet named the winner, there is one payout per correct bet, in
      the order of the bets, to the same bettor, of the bet's stake times the
      whole pool divided by the correct stakes, rounded down. */
  lemma PayoutsOfCorrectBets(bets: seq<Bet>, winner: string)
    requires CorrectBets(bets, winner) != []
    ensures var r, c := CalculateBettingPayouts(bets, winner), CorrectBets(bets, winner);
      && |r| == |c|
      && forall i :: 0 <= i < |r| ==>
           r[i].bettor == c[i].bettor && r[i].amount == c[i].amount * TotalStake(bets) / TotalStake(c)
  {
  }

  /** Two bets, 100 on B by X and 50 on A by Y, with B winning: X alone is paid,
      and receives the whole pool of 150. */
  lemma PayoutExample()
    ensures CalculateBettingPayouts([Bet("X", "B", 100), Bet("Y", "A", 50)], "B") == [Payout("X", 150)]
  {
    var bets := [Bet("X", "B", 100), Bet("Y", "A", 50)];
    assert CorrectBets(bets, "B") == [Bet("X", "B", 100)] by {
      assert CorrectBets(bets[1..], "B") == [];
    }
    assert TotalStake(bets) == 150;
  }

  /** The correct stakes are part of the pool. */
  lemma {:induction false} CorrectStakesWithinPool(bets: seq<Bet>, winner: string)
    ensures TotalStake(CorrectBets(bets, winner)) <= TotalStake(bets)
  {
    if bets != [] {
      CorrectStakesWithinPool(bets[1..], winner);
      var head := if bets[0].predictedWinner == winner then [bets[0]] else [];
      StakeOfConcat(head, CorrectBets(bets[1..], winner));
    }
  }

  lemma {:induction false} StakeOfConcat(a: seq<Bet>, b: seq<Bet>)
    ensures TotalStake(a + b) == TotalStake(a) + TotalStake(b)
  {
    if a == [] {
      assert a + b == b;
    } else {
      StakeOfConcat(a[1..], b);
      assert (a + b)[1..] == a[1..] + b;
    }
  }

  /** Rounding each share down pays at most the rounded-down total share. */
  lemma {:induction false} PaidWithinShare(correct: seq<Bet>, totalPool: nat, totalCorrect: nat)
    requires totalCorrect > 0
    ensures TotalPaid(ScaledPayouts(correct, totalPool, totalCorrect))
         <= TotalStake(correct) * totalPool / totalCorrect
  {
    if correct != [] {
      var x := correct[0].amount * totalPool;
      var rest := TotalStake(correct[1..]) * totalPool;
      ScaledPayoutsHead(correct, totalPool, totalCorrect);
      PaidWithinShare(correct[1..], totalPool, totalCorrect);
      DivSumLe(x, rest, totalCorrect);
      Distrib(correct[0].amount, TotalStake(correct[1..]), totalPool);
    }
  }

  /** The first payout, and the payouts of the other bets. */
  lemma ScaledPayoutsHead(correct: seq<Bet>, totalPool: nat, totalCorrect: nat)
    requires totalCorrect > 0 && correct != []
    ensures TotalPaid(ScaledPayouts(correct, totalPool, totalCorrect))
         == correct[0].amount * totalPool / totalCorrect
            + TotalPaid(ScaledPayouts(correct[1..], totalPool, totalCorrect))
    ensures TotalStake(correct) == correct[0].amount + TotalStake(correct[1..])
  {
    var r := ScaledPayouts(correct, totalPool, totalCorrect);
    assert r[1..] == ScaledPayouts(correct[1..], totalPool, totalCorrect);
  }

  /** When every share divides exactly, the payouts add up to the whole pool. */
  lemma {:induction false} PaidExactShare(correct: seq<Bet>, totalPool: nat, totalCorrect: nat)
    requires totalCorrect > 0
    requires forall i :: 0 <= i < |correct| ==> (correct[i].amount * totalPool) % totalCorrect == 0
    ensures TotalPaid(ScaledPayouts(correct, totalPool, totalCorrect))
         == TotalStake(correct) * totalPool / totalCorrect
  {
    if correct != [] {
      var x := correct[0].amount * totalPool;
      var rest := TotalStake(correct[1..]) * totalPool;
      ScaledPayoutsHead(correct, totalPool, totalCorrect);
      PaidExactShare(correct[1..], totalPool, totalCorrect);
      DivSumExact(x, rest, totalCorrect);
      Distrib(correct[0].amount, TotalStake(correct[1..]), totalPool);
    }
  }

  /** With exact shares nothing is left over: the whole pool is paid out. */
  lemma PayoutsExhaustPool(bets: seq<Bet>, winner: string)
    requires CorrectBets(bets, winner) != []
    requires var c := CorrectBets(bets, winner);
      forall i :: 0 <= i < |c| ==> (c[i].amount * TotalStake(bets)) % TotalStake(c) == 0
    ensures TotalPaid(CalculateBettingPayouts(bets, winner)) == TotalStake(bets)
  {
    var c := CorrectBets(bets, winner);
    PaidExactShare(c, TotalStake(bets), TotalStake(c));
    MulDivCancel(TotalStake(bets), TotalStake(c));
  }

  /** Each correct bettor gets back at least the stake: the whole pool is at
      least the correct stakes, so each share is at least the stake. */
  lemma PayoutAtLeastStake(bets: seq<Bet>, winner: string, i: nat)
    requires i < |CorrectBets(bets, winner)|
    ensures CalculateBettingPayouts(bets, winner)[i].amount >= CorrectBets(bets, winner)[i].amount
  {
    var c := CorrectBets(bets, winner);
    CorrectStakesWithinPool(bets, winner);
    MulDivAtLeast(c[i].amount, TotalStake(bets), TotalStake(c));
  }

  // ---------------------------------------------------------------------
  // Integer division facts
  // ---------------------------------------------------------------------

  lemma {:induction false} MulMono(d: nat, a: nat, b: nat)
    requires b <= a
    ensures d * b <= d * a
    decreases a - b
  {
    if b < a {
      MulMono(d, a - 1, b);
      assert d * a == d * (a - 1) + d;
    }
  }

  lemma Distrib(a: nat, b: nat, c: nat)
    ensures (a + b) * c == a * c + b * c
  {
  }

  lemma DivLowerBound(n: nat, d: nat, q: nat)
    requires d > 0 && d * q <= n
    ensures q <= n / d
  {
    var m := n / d;
    assert n == d * m + n % d;
    assert d * (m + 1) == d * m + d;
    if m < q {
      MulMono(d, q, m + 1);
    }
  }

  lemma DivUnique(n: nat, d: nat, q: nat, r: nat)
    requires d > 0 && n == d * q + r && r < d
    ensures n / d == q
  {
    DivLowerBound(n, d, q);
    var m := n / d;
    assert d * m <= n;
    assert d * (q + 1) == d * q + d;
    if q < m {
      MulMono(d, m, q + 1);
    }
  }

  lemma DivSumLe(x: nat, y: nat, d: nat)
    requires d > 0
    ensures x / d + y / d <= (x + y) / d
  {
    assert d * (x / d) <= x;
    assert d * (y / d) <= y;
    assert d * (x / d + y / d) == d * (x / d) + d * (y / d);
    DivLowerBound(x + y, d, x / d + y / d);
  }

  lemma DivSumExact(x: nat, y: nat, d: nat)
    requires d > 0 && x % d == 0
    ensures x / d + y / d == (x + y) / d
  {
    var q := x / d;
    assert x == d * q;
    assert y == d * (y / d) + y % d;
    assert x + y == d * (q + y / d) + y % d;
    DivUnique(x + y, d, q + y / d, y % d);
  }

  lemma MulDivCancel(p: nat, d: nat)
    requires d > 0
    ensures d * p / d == p
  {
    DivLowerBound(d * p, d, p);
    assert d * (d * p / d) <= d * p;
  }

  lemma MulDivAtLeast(a: nat, p: nat, d: nat)
    requires 0 < d <= p
    ensures a <= a * p / d
  {
    assert d * a <= a * p;
    DivLowerBound(a * p, d, a);
  }
}
