/** `settleBattle` from `oracle.ts`: fetch a snapshot per player (dropping
    the players with none), sort the snapshots in place by percentage change,
    number their ranks, pick the winner, compute the betting payouts, build
    the Merkle commitment, and hand the settlement record to the content
    store. The wallet-data fetch and the upload are external collaborators,
    given as function parameters, as is the hash function. */
module Oracle {
  import opened Wrappers
  import opened Encoding
  import opened Sorting
  import opened MerkleTree
  import opened Merkle

  /** `fetchWalletSnapshot(player)`: a snapshot, or nothing when the wallet
      data could not be obtained. */
  type Fetcher = string -> Option<WalletSnapshot>

  /** The settlement record handed to the content store (`BattleSnapshot`
      without its two timestamps). */
  datatype BattleRecord = BattleRecord(
    battleId: string,
    players: seq<string>,
    snapshots: seq<WalletSnapshot>,
    winner: string,
    winnerAmount: nat,
    bettingPayouts: seq<Payout>,
    merkleRoot: string)

  /** `uploadSnapshotToIPFS(record)`: the content handle of the stored record,
      or the reason the content store rejected it. */
  type Uploader = BattleRecord -> Result<string, string>

  /** What a successful settlement returns. */
  datatype Settlement = Settlement(merkleRoot: string, ipfsCid: string)

  /** The snapshots obtained for `players`, in `players` order; a player whose
      fetch gives nothing is left out. */
  function Collected(fetch: Fetcher, players: seq<string>): (r: seq<WalletSnapshot>)
    ensures |r| <= |players|
    ensures forall s :: s in r ==> exists i :: 0 <= i < |players| && fetch(players[i]) == Some(s)
    ensures forall i :: 0 <= i < |players| && fetch(players[i]).Some? ==> fetch(players[i]).value in r
  {
    if players == [] then []
    else
      var init := players[..|players| - 1];
      var last := players[|players| - 1];
      assert forall i :: 0 <= i < |init| ==> players[i] == init[i];
      Collected(fetch, init) + (match fetch(last) case Some(s) => [s] case None => [])
  }

  /** Collecting over two runs of players is collecting over each in turn:
      the snapshots keep the order of their players. */
  lemma {:induction false} CollectedConcat(fetch: Fetcher, a: seq<string>, b: seq<string>)
    ensures Collected(fetch, a + b) == Collected(fetch, a) + Collected(fetch, b)
    decreases |b|
  {
    if b == [] {
      assert a + b == a;
    } else {
      var init := b[..|b| - 1];
      var last := b[|b| - 1];
      assert (a + b)[..|a + b| - 1] == a + init;
      assert (a + b)[|a + b| - 1] == last;
      CollectedConcat(fetch, a, init);
    }
  }

  /** One player contributes their snapshot once, or nothing when the fetch
      gave none. */
  lemma CollectedOne(fetch: Fetcher, p: string)
    ensures Collected(fetch, [p]) == match fetch(p) case Some(s) => [s] case None => []
  {
    assert [p][..0] == [];
  }

  /** Ranking numbers the ranks 1..n in list order and changes nothing else
      in a snapshot; a sorted list stays sorted. */
  function Ranked(snapshots: seq<WalletSnapshot>): (r: seq<WalletSnapshot>)
    ensures |r| == |snapshots|
    ensures forall i :: 0 <= i < |r| ==>
      r[i].rank == i + 1 && r[i].(rank := snapshots[i].rank) == snapshots[i]
    ensures SortedDesc(snapshots, PercentageChange) ==> SortedDesc(r, PercentageChange)
  {
    seq(|snapshots|, i requires 0 <= i < |snapshots| => snapshots[i].(rank := i + 1))
  }

  /** The ranked snapshots of a settlement: the collected snapshots sorted by
      descending change (ties in collection order), then numbered. */
  function RankedSnapshots(fetch: Fetcher, players: seq<string>): seq<WalletSnapshot> {
    Ranked(SortDesc(Collected(fetch, players), PercentageChange))
  }

  /** The ranked snapshots are ordered by non-increasing change and ranked
      1..n, and every collected snapshot appears among them (with its rank
      set to its position). */
  lemma RankedSnapshotsOrder(fetch: Fetcher, players: seq<string>)
    ensures var c, r := Collected(fetch, players), RankedSnapshots(fetch, players);
      && |r| == |c|
      && SortedDesc(r, PercentageChange)
      && (forall i :: 0 <= i < |r| ==> r[i].rank == i + 1)
      && (forall s :: s in c ==> exists i :: 0 <= i < |r| && r[i] == s.(rank := i + 1))
  {
    var c := Collected(fetch, players);
    var sorted := SortDesc(c, PercentageChange);
    var r := Ranked(sorted);
    assert RankedSnapshots(fetch, players) == r;
    SortDescSorted(c, PercentageChange);
    assert SortedDesc(r, PercentageChange);
    RankedCovers(c);
  }

  /** Every snapshot of `c` appears in its ranked sort, ranked by position. */
  lemma RankedCovers(c: seq<WalletSnapshot>)
    ensures var r := Ranked(SortDesc(c, PercentageChange));
      forall s :: s in c ==> exists i :: 0 <= i < |r| && r[i] == s.(rank := i + 1)
  {
    var sorted := SortDesc(c, PercentageChange);
    var r := Ranked(sorted);
    SortDescPermutation(c, PercentageChange);
    forall s | s in c ensures exists i :: 0 <= i < |r| && r[i] == s.(rank := i + 1) {
      assert s in multiset(sorted);
      var i :| 0 <= i < |sorted| && sorted[i] == s;
      assert r[i] == s.(rank := i + 1);
    }
  }

  /** Snapshots with equal percentage change keep the order in which they were
      collected (the sort is stable); ranking only rewrites the rank field. */
  lemma RankedSnapshotsStable(fetch: Fetcher, players: seq<string>, v: real)
    ensures var c := Collected(fetch, players);
      WithKey(SortDesc(c, PercentageChange), PercentageChange, v) == WithKey(c, PercentageChange, v)
    ensures var c := Collected(fetch, players);
      forall i :: 0 <= i < |c| ==>
        RankedSnapshots(fetch, players)[i] == SortDesc(c, PercentageChange)[i].(rank := i + 1)
  {
    SortDescStable(Collected(fetch, players), PercentageChange, v);
  }

  /** The winner recorded by a settlement is the player of the earliest
      collected snapshot with the largest percentage change. */
  lemma SettlementWinner(fetch: Fetcher, players: seq<string>)
    requires Collected(fetch, players) != []
    ensures var c := Collected(fetch, players);
      RankedSnapshots(fetch, players)[0].player == c[FirstMaxIndex(c, PercentageChange)].player
  {
    SortDescHead(Collected(fetch, players), PercentageChange);
  }

  /** Three players A, B and C whose wallets moved by 10, 25 and -5 percent
      are ranked B, A, C, and B wins. */
  lemma RankingExample()
    ensures var snaps := [WalletSnapshot("A", 0.0, 10.0, 0, 0), WalletSnapshot("B", 0.0, 25.0, 0, 0),
                          WalletSnapshot("C", 0.0, -5.0, 0, 0)];
      var ranked := Ranked(SortDesc(snaps, PercentageChange));
      && |ranked| == 3
      && ranked[0].player == "B" && ranked[0].rank == 1
      && ranked[1].player == "A" && ranked[1].rank == 2
      && ranked[2].player == "C" && ranked[2].rank == 3
      && CalculateWinner(snaps) == Success("B")
  {
    var snaps := [WalletSnapshot("A", 0.0, 10.0, 0, 0), WalletSnapshot("B", 0.0, 25.0, 0, 0),
                  WalletSnapshot("C", 0.0, -5.0, 0, 0)];
    assert snaps[..2][..1] == [snaps[0]];
    assert snaps[..2] == [snaps[0], snaps[1]];
    assert SortDesc(snaps[..1], PercentageChange) == [snaps[0]];
    assert [snaps[0]][..0] == [];
    assert InsertLast([snaps[0]], snaps[1], PercentageChange) == [snaps[1], snaps[0]];
    assert SortDesc(snaps[..2], PercentageChange) == [snaps[1], snaps[0]];
    assert SortDesc(snaps, PercentageChange) == [snaps[1], snaps[0], snaps[2]];
    assert FirstMaxIndex(snaps, PercentageChange) == 1 by {
      assert IsFirstMax(snaps, PercentageChange, 1);
      FirstMaxUnique(snaps, PercentageChange, 1, FirstMaxIndex(snaps, PercentageChange));
    }
  }

  /** `settleBattle(battleId, players, bets, battlePrizePool)`. `uploaded` is
      the record handed to the content store, if settlement got that far; a
      rejected upload makes the settlement fail. */
  method SettleBattle(
    h: Hasher, fetch: Fetcher, upload: Uploader,
    battleId: string, players: seq<string>, bets: seq<Bet>, prizePool: nat)
    returns (outcome: Result<Settlement, SettleError>, uploaded: Option<BattleRecord>)
    ensures Collected(fetch, players) == [] ==>
      outcome == Failure(NoParticipants) && uploaded == None
    ensures Collected(fetch, players) != [] ==>
      var ranked := RankedSnapshots(fetch, players);
      var winner := ranked[0].player;
      var payouts := CalculateBettingPayouts(bets, winner);
      var root := GenerateMerkleTree(h, BattleResult(battleId, winner, prizePool, payouts)).root;
      var record := BattleRecord(battleId, players, ranked, winner, prizePool, payouts, root);
      && uploaded == Some(record)
      && (upload(record).Success? ==> outcome == Success(Settlement(root, upload(record).value)))
      && (upload(record).Failure? ==> outcome == Failure(UploadFailed(upload(record).error)))
  {
    var ranked := RankSnapshots(fetch, players);
    SortDescSorted(Collected(fetch, players), PercentageChange);
    if ranked != [] {
      WinnerOfRanked(ranked);
    }
    var winner := CalculateWinner(ranked);
    if winner.Failure? {
      return Failure(winner.error), None;
    }
    var bettingPayouts := CalculateBettingPayouts(bets, winner.value);
    var battleResult := BattleResult(battleId, winner.value, prizePool, bettingPayouts);
    var commitment := GenerateMerkleTree(h, battleResult);
    var record := BattleRecord(battleId, players, ranked, winner.value, prizePool,
                               bettingPayouts, commitment.root);
    var ipfsCid := upload(record);
    if ipfsCid.Failure? {
      return Failure(UploadFailed(ipfsCid.error)), Some(record);
    }
    return Success(Settlement(commitment.root, ipfsCid.value)), Some(record);
  }

  /** Collects the snapshots, sorts them in place by descending change and
      numbers their ranks. */
  method RankSnapshots(fetch: Fetcher, players: seq<string>) returns (ranked: seq<WalletSnapshot>)
    ensures ranked == RankedSnapshots(fetch, players)
  {
    var snapshots := CollectSnapshots(fetch, players);
    var a := new WalletSnapshot[|snapshots|](i requires 0 <= i < |snapshots| => snapshots[i]);
    assert a[..] == snapshots;
    SortInPlace(a, PercentageChange);
    AssignRanks(a);
    ranked := a[..];
  }

  /** The collection loop: one fetch per player, in order, keeping the
      snapshots that were obtained. */
  method CollectSnapshots(fetch: Fetcher, players: seq<string>) returns (snapshots: seq<WalletSnapshot>)
    ensures snapshots == Collected(fetch, players)
  {
    snapshots := [];
    for i := 0 to |players|
      invariant snapshots == Collected(fetch, players[..i])
    {
      var snapshot := fetch(players[i]);
      if snapshot.Some? {
        snapshots := snapshots + [snapshot.value];
      }
      assert players[..i + 1][..i] == players[..i];
    }
    assert players[..|players|] == players;
  }

  /** `sortedSnapshots.forEach((s, idx) => s.rank = idx + 1)`. */
  method AssignRanks(a: array<WalletSnapshot>)
    modifies a
    ensures a[..] == Ranked(old(a[..]))
  {
    ghost var sorted := a[..];
    for i := 0 to a.Length
      invariant a[..i] == Ranked(sorted)[..i]
      invariant a[i..] == sorted[i..]
    {
      a[i] := a[i].(rank := i + 1);
    }
  }
}
