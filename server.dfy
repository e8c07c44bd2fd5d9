/** The request-level logic of the oracle's HTTP server that is not I/O:
    validation of the settle and proof requests, the proof handler's leaf
    lookup and response, and the de-duplication and ordering of the token
    list behind `/api/tokens/top`. */
module Server {
  import opened Wrappers
  import opened Encoding
  import opened Sorting
  import opened MerkleTree
  import opened Merkle

  // ---------------------------------------------------------------------
  // Request bodies
  // ---------------------------------------------------------------------

  /** A field of a parsed JSON request body, as JavaScript sees it; a missing
      field is `Undefined`. Numbers are taken as reals (NaN is not modelled). */
  datatype JsValue =
    | Undefined
    | Null
    | Bool(b: bool)
    | Num(n: real)
    | Str(s: string)
    | Arr(elems: seq<JsValue>)
    | Obj

  /** JavaScript truthiness: `false`, `0`, `""`, `null` and `undefined` are
      falsy; arrays and objects are truthy even when empty. */
  predicate Truthy(v: JsValue) {
    match v
    case Undefined => false
    case Null => false
    case Bool(b) => b
    case Num(n) => n != 0.0
    case Str(s) => s != ""
    case Arr(_) => true
    case Obj => true
  }

  // ---------------------------------------------------------------------
  // POST /api/battle/:battleId/settle
  // ---------------------------------------------------------------------

  /** The three body fields the settle handler reads. */
  datatype SettleRequest = SettleRequest(players: JsValue, bets: JsValue, battlePrizePool: JsValue)

  /** The settle handler's checks, in order; `Failure(message)` is the 400
      response's error text, `Success` lets settlement go ahead. */
  function ValidateSettle(req: SettleRequest): (r: Result<(), string>)
    ensures r == Failure("Invalid players array") <==>
      !(req.players.Arr? && |req.players.elems| > 0)
    ensures r == Failure("Invalid bets array") <==>
      req.players.Arr? && |req.players.elems| > 0 && !req.bets.Arr?
    ensures r == Failure("Invalid battle prize pool") <==>
      req.players.Arr? && |req.players.elems| > 0 && req.bets.Arr?
      && !(req.battlePrizePool.Num? && req.battlePrizePool.n != 0.0)
    ensures r.Success? <==>
      req.players.Arr? && |req.players.elems| > 0 && req.bets.Arr?
      && req.battlePrizePool.Num? && req.battlePrizePool.n != 0.0
  {
    if !Truthy(req.players) || !req.players.Arr? || |req.players.elems| == 0 then
      Failure("Invalid players array")
    else if !Truthy(req.bets) || !req.bets.Arr? then
      Failure("Invalid bets array")
    else if !Truthy(req.battlePrizePool) || !req.battlePrizePool.Num? then
      Failure("Invalid battle prize pool")
    else
      Success(())
  }

  // ---------------------------------------------------------------------
  // POST /api/merkle/proof
  // ---------------------------------------------------------------------

  /** The proof handler's responses. */
  datatype ProofResponse =
    | BadRequest(error: string)
    | NotFound(error: string)
    | ProofOk(proof: seq<string>, leafHash: string, amount: JsValue)

  /** `l.player === player && l.amount === amount`: strict equality, so only
      a string player and a number amount can match, with no coercion. */
  predicate Matches(l: Leaf, player: JsValue, amount: JsValue)
    ensures Matches(l, player, amount) <==>
      player.Str? && player.s == l.player && amount.Num? && amount.n == l.amount as real
  {
    player == Str(l.player) && amount == Num(l.amount as real)
  }

  /** `leaves.find(...)`: the position of the first matching leaf. */
  function FindLeaf(leaves: seq<Leaf>, player: JsValue, amount: JsValue): (r: Option<nat>)
    ensures r.None? <==> forall j :: 0 <= j < |leaves| ==> !Matches(leaves[j], player, amount)
    ensures r.Some? ==> r.value < |leaves| && Matches(leaves[r.value], player, amount)
    ensures r.Some? ==> forall j :: 0 <= j < r.value ==> !Matches(leaves[j], player, amount)
  {
    if leaves == [] then None
    else if Matches(leaves[0], player, amount) then Some(0)
    else
      var r := FindLeaf(leaves[1..], player, amount);
      if r.None? then None else Some(r.value + 1)
  }

  /** The proof handler. `battleResult` is `None` when the request's field is
      falsy, and otherwise the battle result it carries. */
  function HandleProof(h: Hasher, battleResult: Option<BattleResult>, player: JsValue, amount: JsValue)
    : (r: ProofResponse)
    ensures r.BadRequest? <==> battleResult.None? || !Truthy(player) || amount.Undefined?
    ensures r.BadRequest? ==> r.error == "Missing required fields"
    ensures r.NotFound? <==>
      !r.BadRequest? && forall l :: l in LeafTable(h, battleResult.value) ==> !Matches(l, player, amount)
    ensures r.NotFound? ==> r.error == "Player payout not found in battle result"
    ensures r.ProofOk? ==> r.amount == amount
  {
    if battleResult.None? || !Truthy(player) || amount.Undefined? then
      BadRequest("Missing required fields")
    else
      var c := GenerateMerkleTree(h, battleResult.value);
      match FindLeaf(c.leaves, player, amount)
      case None => NotFound("Player payout not found in battle result")
      case Some(i) => ProofOk(GetMerkleProof(c.tree, c.leaves[i].hash), Hex(c.leaves[i].hash), amount)
  }

  /** A successful proof response is for the first row of the leaf table that
      pays exactly the requested player and amount, and its proof verifies:
      decoding the hex proof and folding it from the decoded leaf hash with the
      sorted-pair rule yields the decoded root of the battle result's tree.
      An amount of zero is accepted like any other. */
  lemma ProofResponseVerifies(h: Hasher, result: BattleResult, player: JsValue, amount: JsValue)
    requires HandleProof(h, Some(result), player, amount).ProofOk?
    ensures var r, c := HandleProof(h, Some(result), player, amount), GenerateMerkleTree(h, result);
      && player.Str? && amount.Num?
      && (exists i :: 0 <= i < |c.leaves|
            && c.leaves[i].player == player.s && c.leaves[i].amount as real == amount.n
            && r.leafHash == Hex(c.leaves[i].hash)
            && (forall j :: 0 <= j < i ==> !Matches(c.leaves[j], player, amount)))
      && IsHex(r.leafHash)
      && (forall k :: 0 <= k < |r.proof| ==> IsHex(r.proof[k]))
      && Verify(h, UnhexAll(r.proof), Unhex(r.leafHash), Unhex(c.root))
  {
    var c := GenerateMerkleTree(h, result);
    var i := FindLeaf(c.leaves, player, amount).value;
    var r := HandleProof(h, Some(result), player, amount);
    assert r == ProofOk(GetMerkleProof(c.tree, c.leaves[i].hash), Hex(c.leaves[i].hash), amount);
    MerkleProofRoundTrip(h, result, i);
    UnhexHex(c.leaves[i].hash);
    assert Unhex(r.leafHash) == c.leaves[i].hash;
  }

  // ---------------------------------------------------------------------
  // GET /api/tokens/top: de-duplication and ordering
  // ---------------------------------------------------------------------

  /** A token as the search loop shapes it. */
  datatype Token = Token(
    id: string,
    symbol: string,
    name: string,
    price: real,
    change24h: real,
    marketCap: real,
    icon: Option<string>)

  /** `toUpperCase` on one ASCII character. */
  function UpperChar(c: char): (u: char)
    ensures 'a' <= c <= 'z' ==> u as int == c as int - 32
    ensures !('a' <= c <= 'z') ==> u == c
  {
    if 'a' <= c <= 'z' then (c as int - 32) as char else c
  }

  /** `toUpperCase` on a string, ASCII letters only. */
  function Upper(s: string): (u: string)
    ensures |u| == |s|
    ensures forall i :: 0 <= i < |s| ==> u[i] == UpperChar(s[i])
  {
    seq(|s|, i requires 0 <= i < |s| => UpperChar(s[i]))
  }

  /** The de-duplication key. */
  function SymbolKey(t: Token): string {
    Upper(t.symbol)
  }

  /** The ordering key. */
  function MarketCap(t: Token): real {
    t.marketCap
  }

  /** Some token of `tokens` has key `k`. */
  ghost predicate HasKey(tokens: seq<Token>, k: string) {
    exists j :: 0 <= j < |tokens| && SymbolKey(tokens[j]) == k
  }

  /** The distinct keys of `tokens`, in order of first appearance (the order
      in which they become properties of the accumulator object). */
  function Keys(tokens: seq<Token>): (ks: seq<string>)
    ensures forall k :: k in ks <==> HasKey(tokens, k)
    ensures forall i :: 0 <= i < |ks| ==> HasKey(tokens, ks[i])
    ensures forall i, j :: 0 <= i < j < |ks| ==> ks[i] != ks[j]
  {
    if tokens == [] then []
    else
      var n := |tokens| - 1;
      var ks := Keys(tokens[..n]);
      assert forall j :: 0 <= j < n ==> tokens[..n][j] == tokens[j];
      ks + (if SymbolKey(tokens[n]) in ks then [] else [SymbolKey(tokens[n])])
  }

  /** The keys come in order of first appearance: a token with a later key
      is always preceded by a token with each earlier key. */
  lemma KeysFirstAppearance(tokens: seq<Token>)
    ensures var ks := Keys(tokens);
      forall i, j, q :: 0 <= i < j < |ks| && 0 <= q < |tokens| && SymbolKey(tokens[q]) == ks[j] ==>
        exists p :: 0 <= p < q && SymbolKey(tokens[p]) == ks[i]
  {
    var ks := Keys(tokens);
    forall i, j, q | 0 <= i < j < |ks| && 0 <= q < |tokens| && SymbolKey(tokens[q]) == ks[j]
      ensures exists p :: 0 <= p < q && SymbolKey(tokens[p]) == ks[i]
    {
      var p := EarlierKey(tokens, i, j, q);
    }
  }

  /** One instance of the first-appearance order, by induction on the tokens:
      a position `p` before `q` holding the `i`-th key. */
  lemma {:induction false} EarlierKey(tokens: seq<Token>, i: nat, j: nat, q: nat) returns (p: nat)
    requires i < j < |Keys(tokens)| && q < |tokens| && SymbolKey(tokens[q]) == Keys(tokens)[j]
    ensures p < q && SymbolKey(tokens[p]) == Keys(tokens)[i]
    decreases |tokens|
  {
    var n := |tokens| - 1;
    var init := tokens[..n];
    var ks0, ks := Keys(init), Keys(tokens);
    assert forall r :: 0 <= r < n ==> init[r] == tokens[r];
    assert ks[..|ks0|] == ks0;
    assert ks[i] == ks0[i] && HasKey(init, ks0[i]);
    if j < |ks0| {
      assert ks[j] == ks0[j];
      var q' := q;
      if q == n {
        assert HasKey(init, ks0[j]);
        q' :| 0 <= q' < n && SymbolKey(init[q']) == ks0[j];
      }
      p := EarlierKey(init, i, j, q');
    } else {
      assert ks[j] == SymbolKey(tokens[n]) && ks[j] !in ks0;
      assert q == n;
      p :| 0 <= p < n && SymbolKey(init[p]) == ks0[i];
    }
  }

  /** `i` is the token kept for key `k`: it has that key, no token with that
      key has a larger market cap, and every earlier one has a smaller one. */
  ghost predicate IsBestFor(tokens: seq<Token>, k: string, i: int) {
    && 0 <= i < |tokens|
    && SymbolKey(tokens[i]) == k
    && (forall j :: 0 <= j < |tokens| && SymbolKey(tokens[j]) == k ==>
          tokens[j].marketCap <= tokens[i].marketCap)
    && (forall j :: 0 <= j < i && SymbolKey(tokens[j]) == k ==>
          tokens[j].marketCap < tokens[i].marketCap)
  }

  /** The position of the token kept for key `k`: the earliest one with the
      largest market cap among those with that key. */
  function BestIndex(tokens: seq<Token>, k: string): (r: Option<nat>)
    ensures r.None? <==> !HasKey(tokens, k)
    ensures r.Some? ==> IsBestFor(tokens, k, r.value)
  {
    if tokens == [] then None
    else
      var n := |tokens| - 1;
      var prev := BestIndex(tokens[..n], k);
      assert forall j :: 0 <= j < n ==> tokens[..n][j] == tokens[j];
      if SymbolKey(tokens[n]) == k && (prev.None? || tokens[n].marketCap > tokens[prev.value].marketCap)
      then Some(n)
      else prev
  }

  /** At most one position is kept for a key. */
  lemma BestForUnique(tokens: seq<Token>, k: string, i1: int, i2: int)
    requires IsBestFor(tokens, k, i1) && IsBestFor(tokens, k, i2)
    ensures i1 == i2
  {
    assert tokens[i1].marketCap == tokens[i2].marketCap;
  }

  /** `Object.values(tokensBySymbol)`: one token per key, in key order. */
  function Deduplicated(tokens: seq<Token>): (d: seq<Token>)
    ensures |d| == |Keys(tokens)|
  {
    var ks := Keys(tokens);
    seq(|ks|, i requires 0 <= i < |ks| => tokens[BestIndex(tokens, ks[i]).value])
  }

  /** No two tokens of `s` share an upper-cased symbol. */
  ghost predicate DistinctKeys(s: seq<Token>) {
    forall i, j :: 0 <= i < j < |s| ==> SymbolKey(s[i]) != SymbolKey(s[j])
  }

  /** Every symbol of `tokens` has a token in `s`. */
  ghost predicate CoversKeys(tokens: seq<Token>, s: seq<Token>) {
    forall j :: 0 <= j < |tokens| ==> exists i :: 0 <= i < |s| && SymbolKey(s[i]) == SymbolKey(tokens[j])
  }

  /** Every token of `s` is the one of `tokens` kept for its symbol. */
  ghost predicate AllKept(tokens: seq<Token>, s: seq<Token>) {
    forall i :: 0 <= i < |s| ==> exists j :: IsBestFor(tokens, SymbolKey(s[i]), j) && s[i] == tokens[j]
  }

  /** Position `i` of the de-duplicated list holds the token kept for the
      `i`-th key. */
  lemma DeduplicatedAt(tokens: seq<Token>, i: nat)
    requires i < |Deduplicated(tokens)|
    ensures var k := Keys(tokens)[i];
      && BestIndex(tokens, k).Some?
      && IsBestFor(tokens, k, BestIndex(tokens, k).value)
      && Deduplicated(tokens)[i] == tokens[BestIndex(tokens, k).value]
      && SymbolKey(Deduplicated(tokens)[i]) == k
  {
  }

  /** The de-duplicated list has exactly one token per key present in the
      input, and that token is the one kept for its key. */
  lemma DeduplicatedSpec(tokens: seq<Token>)
    ensures DistinctKeys(Deduplicated(tokens))
    ensures CoversKeys(tokens, Deduplicated(tokens))
    ensures AllKept(tokens, Deduplicated(tokens))
  {
    DeduplicatedDistinct(tokens);
    DeduplicatedCovers(tokens);
    DeduplicatedKept(tokens);
  }

  /** No two de-duplicated tokens share a key. */
  lemma DeduplicatedDistinct(tokens: seq<Token>)
    ensures DistinctKeys(Deduplicated(tokens))
  {
    DeduplicatedKeyOrder(tokens);
  }

  /** Every de-duplicated token is the one kept for its key. */
  lemma DeduplicatedKept(tokens: seq<Token>)
    ensures AllKept(tokens, Deduplicated(tokens))
  {
    var d := Deduplicated(tokens);
    forall i | 0 <= i < |d| ensures exists j :: IsBestFor(tokens, SymbolKey(d[i]), j) && d[i] == tokens[j] {
      DeduplicatedAt(tokens, i);
    }
  }

  /** The de-duplicated tokens carry the keys in key order. */
  lemma DeduplicatedKeyOrder(tokens: seq<Token>)
    ensures forall i :: 0 <= i < |Deduplicated(tokens)| ==> SymbolKey(Deduplicated(tokens)[i]) == Keys(tokens)[i]
  {
    forall i | 0 <= i < |Deduplicated(tokens)| ensures SymbolKey(Deduplicated(tokens)[i]) == Keys(tokens)[i] {
      DeduplicatedAt(tokens, i);
    }
  }

  /** Every key of the input has its token in the de-duplicated list. */
  lemma DeduplicatedCovers(tokens: seq<Token>)
    ensures CoversKeys(tokens, Deduplicated(tokens))
  {
    var d, ks := Deduplicated(tokens), Keys(tokens);
    DeduplicatedKeyOrder(tokens);
    forall j | 0 <= j < |tokens| ensures exists i :: 0 <= i < |d| && SymbolKey(d[i]) == SymbolKey(tokens[j]) {
      var k := SymbolKey(tokens[j]);
      assert HasKey(tokens, k);
      var i :| 0 <= i < |ks| && ks[i] == k;
      assert SymbolKey(d[i]) == k;
    }
  }

  /** The token the `reduce` holds for key `k` after `tokens`: a token with
      that key replaces the one held only when its market cap is strictly
      larger. */
  function Kept(tokens: seq<Token>, k: string): (r: Option<Token>)
    ensures r.Some? ==> r.value in tokens && SymbolKey(r.value) == k
  {
    if tokens == [] then None
    else
      var n := |tokens| - 1;
      var prev := Kept(tokens[..n], k);
      if SymbolKey(tokens[n]) == k && (prev.None? || tokens[n].marketCap > prev.value.marketCap)
      then Some(tokens[n])
      else prev
  }

  /** The token the `reduce` holds for a key is the earliest one with the
      largest market cap under that key, and there is none for a key absent
      from the input. */
  lemma {:induction false} KeptIsBest(tokens: seq<Token>, k: string)
    ensures Kept(tokens, k).None? <==> !HasKey(tokens, k)
    ensures Kept(tokens, k).Some? ==> exists i :: IsBestFor(tokens, k, i) && Kept(tokens, k).value == tokens[i]
  {
    if tokens != [] {
      var n := |tokens| - 1;
      KeptIsBest(tokens[..n], k);
      assert forall j :: 0 <= j < n ==> tokens[..n][j] == tokens[j];
      var b := BestIndex(tokens, k);
      var prev := BestIndex(tokens[..n], k);
      if Kept(tokens[..n], k).Some? {
        var i :| IsBestFor(tokens[..n], k, i) && Kept(tokens[..n], k).value == tokens[..n][i];
        BestForUnique(tokens[..n], k, i, prev.value);
      }
      assert Kept(tokens, k) == if b.None? then None else Some(tokens[b.value]);
    }
  }

  /** The `reduce` over the collected tokens: a dictionary from upper-cased
      symbol to the token kept so far, replaced only by a strictly larger
      market cap; `order` lists its keys in insertion order. */
  method DedupBySymbol(tokens: seq<Token>) returns (acc: map<string, Token>, order: seq<string>)
    ensures order == Keys(tokens)
    ensures forall k :: k in acc <==> k in order
    ensures forall k :: Kept(tokens, k) == if k in acc then Some(acc[k]) else None
  {
    acc, order := map[], [];
    for i := 0 to |tokens|
      invariant order == Keys(tokens[..i])
      invariant forall k :: k in acc <==> k in order
      invariant forall k :: Kept(tokens[..i], k) == if k in acc then Some(acc[k]) else None
    {
      var token := tokens[i];
      var symbol := Upper(token.symbol);
      KeysStep(tokens, i);
      assert tokens[..i + 1][..i] == tokens[..i];
      if symbol !in acc || token.marketCap > acc[symbol].marketCap {
        if symbol !in acc {
          order := order + [symbol];
        }
        acc := acc[symbol := token];
      }
    }
    assert tokens[..|tokens|] == tokens;
  }

  lemma KeysStep(tokens: seq<Token>, i: nat)
    requires i < |tokens|
    ensures Keys(tokens[..i + 1]) == Keys(tokens[..i])
      + (if SymbolKey(tokens[i]) in Keys(tokens[..i]) then [] else [SymbolKey(tokens[i])])
  {
    assert tokens[..i + 1][..i] == tokens[..i];
  }

  /** The token list of `/api/tokens/top`: the de-duplicated values, sorted in
      place by descending market cap. */
  method TopTokens(tokens: seq<Token>) returns (sorted: seq<Token>)
    ensures sorted == SortDesc(Deduplicated(tokens), MarketCap)
  {
    var acc, order := DedupBySymbol(tokens);
    var a := new Token[|order|](i requires 0 <= i < |order| => acc[order[i]]);
    forall i | 0 <= i < |order| ensures a[i] == Deduplicated(tokens)[i] {
      var k := order[i];
      KeptIsBest(tokens, k);
      var j :| IsBestFor(tokens, k, j) && acc[k] == tokens[j];
      BestForUnique(tokens, k, j, BestIndex(tokens, k).value);
    }
    assert a[..] == Deduplicated(tokens);
    SortInPlace(a, MarketCap);
    sorted := a[..];
  }

  /** The top-tokens list is a permutation of the de-duplicated values, by
      non-increasing market cap, with at most one token per upper-cased
      symbol, one for every symbol found, each the earliest of the largest
      market cap under its symbol. */
  lemma TopTokensSpec(tokens: seq<Token>)
    ensures multiset(SortDesc(Deduplicated(tokens), MarketCap)) == multiset(Deduplicated(tokens))
    ensures SortedDesc(SortDesc(Deduplicated(tokens), MarketCap), MarketCap)
    ensures DistinctKeys(SortDesc(Deduplicated(tokens), MarketCap))
    ensures CoversKeys(tokens, SortDesc(Deduplicated(tokens), MarketCap))
    ensures AllKept(tokens, SortDesc(Deduplicated(tokens), MarketCap))
  {
    var d := Deduplicated(tokens);
    var r := SortDesc(d, MarketCap);
    SortDescPermutation(d, MarketCap);
    SortDescSorted(d, MarketCap);
    DeduplicatedSpec(tokens);
    DistinctKeysPermutation(d, r);
    PermutationCoversKeys(tokens, d, r);
    PermutationKeepsKept(tokens, d, r);
  }

  lemma PermutationCoversKeys(tokens: seq<Token>, d: seq<Token>, r: seq<Token>)
    requires multiset(r) == multiset(d) && CoversKeys(tokens, d)
    ensures CoversKeys(tokens, r)
  {
    forall j | 0 <= j < |tokens| ensures exists i :: 0 <= i < |r| && SymbolKey(r[i]) == SymbolKey(tokens[j]) {
      var p :| 0 <= p < |d| && SymbolKey(d[p]) == SymbolKey(tokens[j]);
      assert d[p] in multiset(r);
      var i :| 0 <= i < |r| && r[i] == d[p];
      assert SymbolKey(r[i]) == SymbolKey(tokens[j]);
    }
    assert forall j :: 0 <= j < |tokens| ==> exists i :: 0 <= i < |r| && SymbolKey(r[i]) == SymbolKey(tokens[j]);
  }

  lemma PermutationKeepsKept(tokens: seq<Token>, d: seq<Token>, r: seq<Token>)
    requires multiset(r) == multiset(d) && AllKept(tokens, d)
    ensures AllKept(tokens, r)
  {
    forall i | 0 <= i < |r| ensures exists j :: IsBestFor(tokens, SymbolKey(r[i]), j) && r[i] == tokens[j] {
      assert r[i] in multiset(d);
      var p :| 0 <= p < |d| && d[p] == r[i];
      var q :| IsBestFor(tokens, SymbolKey(d[p]), q) && d[p] == tokens[q];
      assert IsBestFor(tokens, SymbolKey(r[i]), q) && r[i] == tokens[q];
    }
    assert forall i :: 0 <= i < |r| ==> exists j :: IsBestFor(tokens, SymbolKey(r[i]), j) && r[i] == tokens[j];
  }

  /** Reordering a list whose symbols are distinct keeps them distinct. */
  lemma DistinctKeysPermutation(d: seq<Token>, r: seq<Token>)
    requires multiset(r) == multiset(d) && DistinctKeys(d)
    ensures DistinctKeys(r)
  {
    forall i, j | 0 <= i < j < |r| ensures SymbolKey(r[i]) != SymbolKey(r[j]) {
      if SymbolKey(r[i]) == SymbolKey(r[j]) {
        assert r[i] in multiset(d) && r[j] in multiset(d);
        var p :| 0 <= p < |d| && d[p] == r[i];
        var q :| 0 <= q < |d| && d[q] == r[j];
        if p == q {
          TwiceInMultiset(r, i, j);
          OnceInMultiset(d, p);
        }
      }
    }
  }

  /** An element at two positions occurs at least twice. */
  lemma TwiceInMultiset<T>(s: seq<T>, i: nat, j: nat)
    requires i < j < |s| && s[i] == s[j]
    ensures multiset(s)[s[i]] >= 2
  {
    assert s == s[..j] + [s[j]] + s[j + 1..];
    assert s[i] in multiset(s[..j]);
  }

  /** In a list with distinct symbols, each element occurs once. */
  lemma {:induction false} OnceInMultiset(d: seq<Token>, p: nat)
    requires p < |d| && DistinctKeys(d)
    ensures multiset(d)[d[p]] == 1
  {
    var n := |d| - 1;
    assert d == d[..n] + [d[n]];
    if p == n {
      assert d[n] !in d[..n];
    } else {
      OnceInMultiset(d[..n], p);
      assert d[n] != d[p];
    }
  }
}
