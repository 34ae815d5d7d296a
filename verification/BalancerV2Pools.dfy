/**
 Balancer V2 pools can hold the pool tokens of other pools. This module unfolds a pool into the main
 tokens reachable through that nesting, and finds the hops that lead from one main token to another.
 */
module BalancerV2Pools {
  import opened Wrappers
  import opened Sides
  import opened Text
  import opened Sequences

  datatype PoolType =
    | Weighted | Stable | MetaStable | LiquidityBootstrapping | Investment | StablePhantom | ComposableStable
    | Linear | AaveLinear | ERC4626Linear | BeefyLinear | GearboxLinear | MidasLinear | ReaperLinear
    | SiloLinear | TetuLinear | YearnLinear

  datatype Token = Token(address: string, decimals: nat)

  /** One step from a pool token into the pool it stands for, and the token taken out of there. */
  datatype PathStep = PathStep(poolId: string, poolAddress: string, token: Token)

  datatype MainToken = MainToken(token: Token, poolToken: Token, pathToToken: seq<PathStep>, isDeeplyNested: bool)

  datatype Pool = Pool(id: string, address: string, poolType: PoolType, tokens: seq<Token>, mainIndex: nat,
                       mainTokens: seq<MainToken>)

  type PoolsMap = map<string, Pool>

  datatype Hop = Hop(pool: Pool, tokenIn: Token, tokenOut: Token)

  datatype PathError = UnknownPool | MissingMainToken(address: string)

  predicate IsLinearPool(t: PoolType) {
    t in {Linear, AaveLinear, ERC4626Linear, BeefyLinear, GearboxLinear, MidasLinear, ReaperLinear, SiloLinear,
          TetuLinear, YearnLinear}
  }

  predicate IsPhantomStablePool(t: PoolType) {
    t in {StablePhantom, ComposableStable}
  }

  // ---------------------------------------------------------------- what the pool list guarantees

  /** The map is keyed by pool address, and a linear pool has its main token. */
  ghost predicate ValidPools(pools: PoolsMap) {
    forall a :: a in pools ==>
      && pools[a].address == a
      && (IsLinearPool(pools[a].poolType) ==> pools[a].mainIndex < |pools[a].tokens|)
  }

  /** A token that stands for a phantom stable pool nested in the given one. */
  predicate Nests(pools: PoolsMap, pool: Pool, token: Token) {
    token.address != pool.address && token.address in pools && IsPhantomStablePool(pools[token.address].poolType)
  }

  /** Nesting is acyclic: a nested phantom stable pool ranks below the pool it is nested in. */
  ghost predicate Acyclic(pools: PoolsMap, pool: Pool, rank: map<string, nat>) {
    && (forall a :: a in pools ==> RanksBelow(pools, pools[a], rank))
    && RanksBelow(pools, pool, rank)
  }

  ghost predicate RanksBelow(pools: PoolsMap, pool: Pool, rank: map<string, nat>) {
    && pool.address in rank
    && forall t :: t in pool.tokens && Nests(pools, pool, t) ==> t.address in rank && rank[t.address] < rank[pool.address]
  }

  // ---------------------------------------------------------------- main tokens

  /** The main tokens one pool token gives rise to; none when it is the pool's own token. */
  function TokenMainTokens(pools: PoolsMap, pool: Pool, token: Token, ghost rank: map<string, nat>): seq<MainToken>
    requires ValidPools(pools) && Acyclic(pools, pool, rank) && token in pool.tokens
    decreases rank[pool.address], 0
  {
    if token.address == pool.address then []
    else if token.address in pools && IsLinearPool(pools[token.address].poolType) then
      var tokenPool := pools[token.address];
      var main := tokenPool.tokens[tokenPool.mainIndex];
      [MainToken(main, token, [PathStep(tokenPool.id, tokenPool.address, main)], false)]
    else if token.address in pools && IsPhantomStablePool(pools[token.address].poolType) then
      var tokenPool := pools[token.address];
      var nested := MainTokens(pools, tokenPool, tokenPool.tokens, rank);
      seq(|nested|, i requires 0 <= i < |nested| => Nest(tokenPool, token, nested[i]))
    else [MainToken(token, token, [], false)]
  }

  /** A nested main token, seen from the pool that holds the nested pool's token. */
  function Nest(tokenPool: Pool, token: Token, m: MainToken): MainToken {
    MainToken(m.token, token, [PathStep(tokenPool.id, tokenPool.address, m.poolToken)] + m.pathToToken, true)
  }

  /** The main tokens of the first tokens of a pool, in order. */
  function MainTokens(pools: PoolsMap, pool: Pool, tokens: seq<Token>, ghost rank: map<string, nat>): seq<MainToken>
    requires ValidPools(pools) && Acyclic(pools, pool, rank) && tokens <= pool.tokens
    decreases rank[pool.address], 1, |tokens|
  {
    if tokens == [] then []
    else
      var n := |tokens| - 1;
      MainTokens(pools, pool, tokens[..n], rank) + TokenMainTokens(pools, pool, tokens[n], rank)
  }

  method PoolGetMainTokens(pool: Pool, pools: PoolsMap, ghost rank: map<string, nat>) returns (mainTokens: seq<MainToken>)
    requires ValidPools(pools) && Acyclic(pools, pool, rank)
    ensures mainTokens == MainTokens(pools, pool, pool.tokens, rank)
    decreases rank[pool.address]
  {
    mainTokens := [];
    var i := 0;
    while i < |pool.tokens|
      invariant 0 <= i <= |pool.tokens|
      invariant mainTokens == MainTokens(pools, pool, pool.tokens[..i], rank)
    {
      var token := pool.tokens[i];
      assert pool.tokens[..i + 1][..i] == pool.tokens[..i];
      i := i + 1;
      if token.address == pool.address {
        continue;
      }
      if token.address in pools && IsLinearPool(pools[token.address].poolType) {
        var tokenPool := pools[token.address];
        var main := tokenPool.tokens[tokenPool.mainIndex];
        mainTokens := mainTokens + [MainToken(main, token, [PathStep(tokenPool.id, tokenPool.address, main)], false)];
      } else if token.address in pools && IsPhantomStablePool(pools[token.address].poolType) {
        var tokenPool := pools[token.address];
        var nested := PoolGetMainTokens(tokenPool, pools, rank);
        mainTokens := mainTokens + seq(|nested|, k requires 0 <= k < |nested| => Nest(tokenPool, token, nested[k]));
      } else {
        mainTokens := mainTokens + [MainToken(token, token, [], false)];
      }
    }
    assert pool.tokens[..|pool.tokens|] == pool.tokens;
  }

  // ---------------------------------------------------------------- paths through the nesting

  /**
   Following `path` from pool token t: each step goes into the pool t stands for and takes a token of
   that pool out, until `target` is reached.
   */
  ghost predicate Leads(pools: PoolsMap, t: Token, path: seq<PathStep>, target: Token)
    decreases |path|
  {
    if path == [] then t == target
    else
      && path[0].poolAddress == t.address
      && t.address in pools
      && path[0].poolId == pools[t.address].id
      && path[0].token in pools[t.address].tokens
      && Leads(pools, path[0].token, path[1..], target)
  }

  /** A path that goes into every nested pool it meets and stops at the first token that is not one. */
  ghost predicate Unfolds(pools: PoolsMap, t: Token, path: seq<PathStep>, target: Token)
    requires ValidPools(pools)
    decreases |path|
  {
    if t.address in pools && IsLinearPool(pools[t.address].poolType) then
      var p := pools[t.address];
      target == p.tokens[p.mainIndex] && path == [PathStep(p.id, p.address, target)]
    else if t.address in pools && IsPhantomStablePool(pools[t.address].poolType) then
      var p := pools[t.address];
      && path != []
      && path[0] == PathStep(p.id, p.address, path[0].token)
      && path[0].token in p.tokens && path[0].token.address != p.address
      && Unfolds(pools, path[0].token, path[1..], target)
    else path == [] && target == t
  }

  /** What it takes to be a main token of a pool, without saying how it is found. */
  ghost predicate IsMainToken(pools: PoolsMap, pool: Pool, tokens: seq<Token>, m: MainToken)
    requires ValidPools(pools)
  {
    && m.poolToken in tokens && m.poolToken.address != pool.address
    && (m.isDeeplyNested <==> Nests(pools, pool, m.poolToken))
    && Unfolds(pools, m.poolToken, m.pathToToken, m.token)
  }

  lemma PoolKinds(t: PoolType)
    ensures !(IsLinearPool(t) && IsPhantomStablePool(t))
  {
  }

  lemma {:induction false} TokenMainTokensExact(pools: PoolsMap, pool: Pool, token: Token, rank: map<string, nat>, m: MainToken)
    requires ValidPools(pools) && Acyclic(pools, pool, rank) && token in pool.tokens
    ensures m in TokenMainTokens(pools, pool, token, rank) <==> IsMainToken(pools, pool, [token], m)
    decreases rank[pool.address], 0
  {
    if Nests(pools, pool, token) {
      var p := pools[token.address];
      PoolKinds(p.poolType);
      var nested := MainTokens(pools, p, p.tokens, rank);
      var all := TokenMainTokens(pools, pool, token, rank);
      if m in all {
        var i :| 0 <= i < |all| && all[i] == m;
        assert nested[i] in nested && m == Nest(p, token, nested[i]);
        MainTokensExact(pools, p, p.tokens, rank, nested[i]);
        TailOfConcat([m.pathToToken[0]], nested[i].pathToToken);
      }
      if IsMainToken(pools, pool, [token], m) {
        var q := m.pathToToken[0].token;
        var inner := MainToken(m.token, q, m.pathToToken[1..], Nests(pools, p, q));
        MainTokensExact(pools, p, p.tokens, rank, inner);
        var i :| 0 <= i < |nested| && nested[i] == inner;
        assert m == Nest(p, token, inner) by {
          assert m.pathToToken == [m.pathToToken[0]] + m.pathToToken[1..];
        }
        assert all[i] == m;
      }
    }
  }

  /** The recursion finds exactly the main tokens, each with its path. */
  lemma {:induction false} MainTokensExact(pools: PoolsMap, pool: Pool, tokens: seq<Token>, rank: map<string, nat>, m: MainToken)
    requires ValidPools(pools) && Acyclic(pools, pool, rank) && tokens <= pool.tokens
    ensures m in MainTokens(pools, pool, tokens, rank) <==> IsMainToken(pools, pool, tokens, m)
    decreases rank[pool.address], 1, |tokens|
  {
    if tokens != [] {
      var n := |tokens| - 1;
      MainTokensExact(pools, pool, tokens[..n], rank, m);
      TokenMainTokensExact(pools, pool, tokens[n], rank, m);
      assert tokens == tokens[..n] + [tokens[n]];
    }
  }

  lemma {:induction false} UnfoldsLeads(pools: PoolsMap, t: Token, path: seq<PathStep>, target: Token)
    requires ValidPools(pools) && Unfolds(pools, t, path, target)
    ensures Leads(pools, t, path, target)
    decreases |path|
  {
    if path != [] {
      PoolKinds(pools[t.address].poolType);
      if IsPhantomStablePool(pools[t.address].poolType) {
        UnfoldsLeads(pools, path[0].token, path[1..], target);
      }
    }
  }

  // ---------------------------------------------------------------- from one main token to another

  /** A pool as the subgraph query completes it: with its own main tokens. */
  ghost predicate Completed(pools: PoolsMap, pool: Pool, rank: map<string, nat>) {
    ValidPools(pools) && Acyclic(pools, pool, rank) && pool.mainTokens == MainTokens(pools, pool, pool.tokens, rank)
  }

  /** The first main token with the given address, in whatever case it is written. */
  function FindRequiredMainToken(tokenToFind: string, tokens: seq<MainToken>): (r: Result<MainToken, PathError>)
    ensures r.Success? ==> r.value in tokens && Lower(r.value.token.address) == Lower(tokenToFind)
    ensures r.Failure? <==> forall m :: m in tokens ==> Lower(m.token.address) != Lower(tokenToFind)
  {
    if tokens == [] then Failure(MissingMainToken(tokenToFind))
    else if Lower(tokens[0].token.address) == Lower(tokenToFind) then Success(tokens[0])
    else FindRequiredMainToken(tokenToFind, tokens[1..])
  }

  predicate StepsKnown(pools: PoolsMap, path: seq<PathStep>) {
    forall i :: 0 <= i < |path| ==> path[i].poolAddress in pools
  }

  function HopsIn(pools: PoolsMap, path: seq<PathStep>): seq<Hop>
    requires StepsKnown(pools, path)
  {
    seq(|path|, i requires 0 <= i < |path| =>
      Hop(pools[path[i].poolAddress], path[i].token, Token(path[i].poolAddress, 18)))
  }

  function HopsOut(pools: PoolsMap, path: seq<PathStep>): seq<Hop>
    requires StepsKnown(pools, path)
  {
    seq(|path|, i requires 0 <= i < |path| =>
      Hop(pools[path[i].poolAddress], Token(path[i].poolAddress, 18), path[i].token))
  }

  lemma {:induction false} LeadsKnown(pools: PoolsMap, t: Token, path: seq<PathStep>, target: Token)
    requires Leads(pools, t, path, target)
    ensures StepsKnown(pools, path)
    decreases |path|
  {
    if path != [] {
      LeadsKnown(pools, path[0].token, path[1..], target);
      forall i | 0 <= i < |path| ensures path[i].poolAddress in pools {
        assert i > 0 ==> path[i] == path[1..][i - 1];
      }
    }
  }

  lemma FoundPath(pools: PoolsMap, pool: Pool, rank: map<string, nat>, m: MainToken)
    requires Completed(pools, pool, rank) && m in pool.mainTokens
    ensures m.poolToken in pool.tokens && m.poolToken.address != pool.address
    ensures Leads(pools, m.poolToken, m.pathToToken, m.token) && StepsKnown(pools, m.pathToToken)
  {
    MainTokensExact(pools, pool, pool.tokens, rank, m);
    UnfoldsLeads(pools, m.poolToken, m.pathToToken, m.token);
    LeadsKnown(pools, m.poolToken, m.pathToToken, m.token);
  }

  function PathForTokenInOut(tokenIn: string, tokenOut: string, pool: Pool, pools: PoolsMap, side: SwapSide,
                             ghost rank: map<string, nat>): Result<seq<Hop>, PathError>
    requires Completed(pools, pool, rank)
  {
    var mIn :- FindRequiredMainToken(tokenIn, pool.mainTokens);
    var mOut :- FindRequiredMainToken(tokenOut, pool.mainTokens);
    FoundPath(pools, pool, rank, mIn);
    FoundPath(pools, pool, rank, mOut);
    var result := HopsIn(pools, Reverse(mIn.pathToToken)) + [Hop(pool, mIn.poolToken, mOut.poolToken)]
                  + HopsOut(pools, mOut.pathToToken);
    Success(if side == SELL then result else Reverse(result))
  }

  // ---------------------------------------------------------------- hops connect

  /** A hop swaps two of its pool's assets: pooled tokens or the pool's own token. */
  ghost predicate WithinPool(h: Hop) {
    && (h.tokenIn in h.pool.tokens || h.tokenIn.address == h.pool.address)
    && (h.tokenOut in h.pool.tokens || h.tokenOut.address == h.pool.address)
  }

  /** Consecutive hops connect, from address `first` to address `last`. */
  ghost predicate Connects(first: string, hops: seq<Hop>, last: string)
    decreases |hops|
  {
    if hops == [] then first == last
    else WithinPool(hops[0]) && hops[0].tokenIn.address == first && Connects(hops[0].tokenOut.address, hops[1..], last)
  }

  lemma {:induction false} ConnectsConcat(a: string, s: seq<Hop>, b: string, t: seq<Hop>, c: string)
    requires Connects(a, s, b) && Connects(b, t, c)
    ensures Connects(a, s + t, c)
    decreases |s|
  {
    if s == [] {
      assert s + t == t;
    } else {
      ConnectsConcat(s[0].tokenOut.address, s[1..], b, t, c);
      assert (s + t)[1..] == s[1..] + t;
    }
  }

  lemma {:induction false} HopsOutConnect(pools: PoolsMap, t: Token, path: seq<PathStep>, target: Token)
    requires ValidPools(pools) && Leads(pools, t, path, target) && StepsKnown(pools, path)
    ensures Connects(t.address, HopsOut(pools, path), target.address)
    decreases |path|
  {
    if path != [] {
      assert StepsKnown(pools, path[1..]) by {
        LeadsKnown(pools, path[0].token, path[1..], target);
      }
      HopsOutConnect(pools, path[0].token, path[1..], target);
      assert HopsOut(pools, path)[1..] == HopsOut(pools, path[1..]);
    }
  }

  lemma {:induction false} HopsInConnect(pools: PoolsMap, t: Token, path: seq<PathStep>, target: Token)
    requires ValidPools(pools) && Leads(pools, t, path, target) && StepsKnown(pools, path)
    ensures StepsKnown(pools, Reverse(path)) && Connects(target.address, HopsIn(pools, Reverse(path)), t.address)
    decreases |path|
  {
    if path != [] {
      var rest := path[1..];
      LeadsKnown(pools, path[0].token, rest, target);
      HopsInConnect(pools, path[0].token, rest, target);
      assert Reverse(path) == Reverse(rest) + [path[0]];
      var last := Hop(pools[path[0].poolAddress], path[0].token, Token(path[0].poolAddress, 18));
      assert HopsIn(pools, Reverse(path)) == HopsIn(pools, Reverse(rest)) + [last];
      assert [last][1..] == [];
      ConnectsConcat(target.address, HopsIn(pools, Reverse(rest)), path[0].token.address, [last], t.address);
    }
  }

  /** The hops found for a pool lead from the incoming token to the outgoing one, whatever the nesting. */
  lemma PathTheorem(tokenIn: string, tokenOut: string, pool: Pool, pools: PoolsMap, rank: map<string, nat>)
    requires Completed(pools, pool, rank)
    ensures var r := PathForTokenInOut(tokenIn, tokenOut, pool, pools, SELL, rank);
            r.Success? ==>
              var hops := r.value;
              && hops != []
              && Lower(hops[0].tokenIn.address) == Lower(tokenIn)
              && Lower(hops[|hops| - 1].tokenOut.address) == Lower(tokenOut)
              && Connects(hops[0].tokenIn.address, hops, hops[|hops| - 1].tokenOut.address)
    ensures PathForTokenInOut(tokenIn, tokenOut, pool, pools, SELL, rank).Failure? <==>
            (forall m :: m in pool.mainTokens ==> Lower(m.token.address) != Lower(tokenIn))
            || (forall m :: m in pool.mainTokens ==> Lower(m.token.address) != Lower(tokenOut))
  {
    var r := PathForTokenInOut(tokenIn, tokenOut, pool, pools, SELL, rank);
    if r.Success? {
      var mIn := FindRequiredMainToken(tokenIn, pool.mainTokens).value;
      var mOut := FindRequiredMainToken(tokenOut, pool.mainTokens).value;
      FoundPath(pools, pool, rank, mIn);
      FoundPath(pools, pool, rank, mOut);
      HopsInConnect(pools, mIn.poolToken, mIn.pathToToken, mIn.token);
      HopsOutConnect(pools, mOut.poolToken, mOut.pathToToken, mOut.token);
      var mid := Hop(pool, mIn.poolToken, mOut.poolToken);
      assert [mid][1..] == [];
      var ins, outs := HopsIn(pools, Reverse(mIn.pathToToken)), HopsOut(pools, mOut.pathToToken);
      ConnectsConcat(mIn.token.address, ins, mIn.poolToken.address, [mid], mOut.poolToken.address);
      ConnectsConcat(mIn.token.address, ins + [mid], mOut.poolToken.address, outs, mOut.token.address);
      ConnectsEnds(mIn.token.address, ins + [mid] + outs, mOut.token.address);
    }
  }

  lemma {:induction false} ConnectsEnds(a: string, hops: seq<Hop>, b: string)
    requires Connects(a, hops, b) && hops != []
    ensures hops[0].tokenIn.address == a && hops[|hops| - 1].tokenOut.address == b
    decreases |hops|
  {
    if |hops| > 1 {
      ConnectsEnds(hops[0].tokenOut.address, hops[1..], b);
    }
  }
}
