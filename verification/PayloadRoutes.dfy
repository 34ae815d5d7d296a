/**
 Grouping the exchanges of a swap under their adapters: every exchange ends up in exactly one route, no
 network fee is lost or paid twice, and the shares inside a route add up to the whole.
 */
module PayloadRoutes {
  import opened Wrappers
  import opened Sides
  import opened Text
  import opened Rounding
  import opened AdapterMap
  import opened AdapterCoverage
  import BasisPoints

  /** One exchange of a swap, with the payload and fee its builder asks for. */
  datatype SwapExchange = SwapExchange(exchange: string, percent: real, networkFee: int, payload: string)

  /** Shares without a total are not numbers. */
  datatype Percent = Bps(bps: int) | NaN

  datatype RouteEntry = RouteEntry(index: nat, percent: Percent, networkFee: int, payload: string)

  datatype ContractAdapter = ContractAdapter(adapter: string, percent: int, networkFee: int, route: seq<RouteEntry>)

  /** The adapters so far, in order of first use. */
  datatype Groups = Groups(keys: seq<string>, entries: map<string, ContractAdapter>)

  type Choice = map<string, AdapterConfig>

  function Names(exchanges: seq<SwapExchange>): (names: seq<string>)
    ensures |names| == |exchanges|
  {
    seq(|exchanges|, i requires 0 <= i < |exchanges| => exchanges[i].exchange)
  }

  predicate Chosen(m: Choice, exchanges: seq<SwapExchange>) {
    forall i :: 0 <= i < |exchanges| ==> Lower(exchanges[i].exchange) in m
  }

  function Entry(m: Choice, se: SwapExchange): RouteEntry
    requires Lower(se.exchange) in m
  {
    RouteEntry(m[Lower(se.exchange)].index, Bps(Rounded(se.percent * 100.0)), se.networkFee, se.payload)
  }

  function AddExchange(m: Choice, g: Groups, se: SwapExchange): Groups
    requires Lower(se.exchange) in m
  {
    var a := m[Lower(se.exchange)].adapter;
    var known := a in g.entries;
    var before := if known then g.entries[a] else ContractAdapter(a, 0, 0, []);
    var after := ContractAdapter(a, Rounded(before.percent as real + se.percent * 100.0),
                                 before.networkFee + se.networkFee, before.route + [Entry(m, se)]);
    Groups(if known then g.keys else g.keys + [a], g.entries[a := after])
  }

  function GroupAll(m: Choice, exchanges: seq<SwapExchange>): Groups
    requires Chosen(m, exchanges)
  {
    if exchanges == [] then Groups([], map[])
    else AddExchange(m, GroupAll(m, exchanges[..|exchanges| - 1]), exchanges[|exchanges| - 1])
  }

  // ---------------------------------------------------------------- each exchange in exactly one route

  /** The entries of the exchanges assigned to an adapter, in the order of the swap. */
  function RouteOf(m: Choice, exchanges: seq<SwapExchange>, adapter: string): seq<RouteEntry>
    requires Chosen(m, exchanges)
  {
    if exchanges == [] then []
    else
      var last := exchanges[|exchanges| - 1];
      RouteOf(m, exchanges[..|exchanges| - 1], adapter)
      + if m[Lower(last.exchange)].adapter == adapter then [Entry(m, last)] else []
  }

  function Fees(route: seq<RouteEntry>): int {
    if route == [] then 0 else Fees(route[..|route| - 1]) + route[|route| - 1].networkFee
  }

  ghost predicate Consistent(g: Groups) {
    && (forall i, j :: 0 <= i < j < |g.keys| ==> g.keys[i] != g.keys[j])
    && (forall k :: k in g.keys <==> k in g.entries)
    && (forall k :: k in g.entries ==> Charges(k, g.entries[k]))
  }

  /** A used adapter charges the fees of its own route. */
  ghost predicate Charges(adapter: string, c: ContractAdapter) {
    c.adapter == adapter && c.networkFee == Fees(c.route) && c.route != []
  }

  lemma FeesAppend(route: seq<RouteEntry>, e: RouteEntry)
    ensures Fees(route + [e]) == Fees(route) + e.networkFee
  {
    assert (route + [e])[..|route|] == route;
  }

  lemma AddConsistent(m: Choice, g: Groups, se: SwapExchange)
    requires Lower(se.exchange) in m && Consistent(g)
    ensures Consistent(AddExchange(m, g, se))
  {
    var a := m[Lower(se.exchange)].adapter;
    FeesAppend(if a in g.entries then g.entries[a].route else [], Entry(m, se));
    assert Charges(a, AddExchange(m, g, se).entries[a]);
  }

  /** The group of an adapter holds exactly its exchanges, in order, and pays exactly their fees. */
  lemma {:induction false} GroupTheorem(m: Choice, exchanges: seq<SwapExchange>, adapter: string)
    requires Chosen(m, exchanges)
    ensures var g := GroupAll(m, exchanges);
            && Consistent(g)
            && (adapter in g.entries <==> RouteOf(m, exchanges, adapter) != [])
            && (adapter in g.entries ==> g.entries[adapter].route == RouteOf(m, exchanges, adapter))
  {
    if exchanges != [] {
      var last := |exchanges| - 1;
      GroupTheorem(m, exchanges[..last], adapter);
      AddConsistent(m, GroupAll(m, exchanges[..last]), exchanges[last]);
    }
  }

  // ---------------------------------------------------------------- no fee lost or paid twice

  function TotalFees(keys: seq<string>, entries: map<string, ContractAdapter>): int
    requires forall k :: k in keys ==> k in entries
  {
    if keys == [] then 0
    else TotalFees(keys[..|keys| - 1], entries) + entries[keys[|keys| - 1]].networkFee
  }

  function ExchangeFees(exchanges: seq<SwapExchange>): int {
    if exchanges == [] then 0
    else ExchangeFees(exchanges[..|exchanges| - 1]) + exchanges[|exchanges| - 1].networkFee
  }

  lemma {:induction false} TotalWithout(keys: seq<string>, entries: map<string, ContractAdapter>, a: string, v: ContractAdapter)
    requires a !in keys && forall k :: k in keys ==> k in entries
    ensures TotalFees(keys, entries[a := v]) == TotalFees(keys, entries)
  {
    if keys != [] {
      TotalWithout(keys[..|keys| - 1], entries, a, v);
    }
  }

  lemma {:induction false} TotalUpdate(keys: seq<string>, entries: map<string, ContractAdapter>, a: string, v: ContractAdapter)
    requires a in keys && forall k :: k in keys ==> k in entries
    requires forall i, j :: 0 <= i < j < |keys| ==> keys[i] != keys[j]
    ensures TotalFees(keys, entries[a := v]) == TotalFees(keys, entries) - entries[a].networkFee + v.networkFee
  {
    var last := |keys| - 1;
    if keys[last] == a {
      TotalWithout(keys[..last], entries, a, v);
    } else {
      TotalUpdate(keys[..last], entries, a, v);
    }
  }

  lemma TotalOneMore(keys: seq<string>, entries: map<string, ContractAdapter>, a: string, v: ContractAdapter)
    requires a !in keys && forall k :: k in keys ==> k in entries
    ensures TotalFees(keys + [a], entries[a := v]) == TotalFees(keys, entries) + v.networkFee
  {
    TotalWithout(keys, entries, a, v);
    assert (keys + [a])[..|keys|] == keys;
  }

  lemma AddTotal(m: Choice, g: Groups, se: SwapExchange)
    requires Lower(se.exchange) in m && Consistent(g) && Consistent(AddExchange(m, g, se))
    ensures var g' := AddExchange(m, g, se);
            TotalFees(g'.keys, g'.entries) == TotalFees(g.keys, g.entries) + se.networkFee
  {
    var a := m[Lower(se.exchange)].adapter;
    var v := AddExchange(m, g, se).entries[a];
    if a in g.entries {
      TotalUpdate(g.keys, g.entries, a, v);
    } else {
      TotalOneMore(g.keys, g.entries, a, v);
    }
  }

  /** The fees of all adapters together are the fees of all exchanges together. */
  lemma {:induction false} FeeTheorem(m: Choice, exchanges: seq<SwapExchange>)
    requires Chosen(m, exchanges)
    ensures var g := GroupAll(m, exchanges);
            Consistent(g) && TotalFees(g.keys, g.entries) == ExchangeFees(exchanges)
  {
    if exchanges != [] {
      var last := |exchanges| - 1;
      FeeTheorem(m, exchanges[..last]);
      AddConsistent(m, GroupAll(m, exchanges[..last]), exchanges[last]);
      AddTotal(m, GroupAll(m, exchanges[..last]), exchanges[last]);
    }
  }

  // ---------------------------------------------------------------- the shares of a route

  function RawShares(route: seq<RouteEntry>): (r: seq<real>)
    requires forall i :: 0 <= i < |route| ==> route[i].percent.Bps?
    ensures |r| == |route|
  {
    seq(|route|, i requires 0 <= i < |route| => route[i].percent.bps as real)
  }

  predicate AllPointed(g: Groups) {
    forall k, i :: k in g.entries && 0 <= i < |g.entries[k].route| ==> g.entries[k].route[i].percent.Bps?
  }

  lemma {:induction false} GroupsPointed(m: Choice, exchanges: seq<SwapExchange>)
    requires Chosen(m, exchanges)
    ensures AllPointed(GroupAll(m, exchanges))
  {
    if exchanges != [] {
      GroupsPointed(m, exchanges[..|exchanges| - 1]);
    }
  }

  /** The same adapter with its shares in exact basis points, everything else untouched. */
  ghost predicate SharesFixed(before: ContractAdapter, after: ContractAdapter)
    requires forall i :: 0 <= i < |before.route| ==> before.route[i].percent.Bps?
  {
    && after.adapter == before.adapter && after.percent == before.percent && after.networkFee == before.networkFee
    && |after.route| == |before.route|
    && (forall i :: 0 <= i < |before.route| ==>
          after.route[i] == before.route[i].(percent := after.route[i].percent))
    && var total := BasisPoints.RealSum(RawShares(before.route));
       if total == 0.0 then forall i :: 0 <= i < |before.route| ==> after.route[i].percent.NaN?
       else exists bps: seq<int> ::
              && BasisPoints.Distributed(RawShares(before.route), total, bps)
              && (forall i :: 0 <= i < |before.route| ==> after.route[i].percent == Bps(bps[i]))
  }

  method FixShares(before: ContractAdapter) returns (after: ContractAdapter)
    requires before.route != [] && forall i :: 0 <= i < |before.route| ==> before.route[i].percent.Bps?
    ensures SharesFixed(before, after)
  {
    var fixed := BasisPoints.ConvertToBasisPoints(RawShares(before.route));
    var route := seq(|before.route|, i requires 0 <= i < |before.route| =>
      before.route[i].(percent :=
        if fixed.Success? && |fixed.value| == |before.route| then Bps(fixed.value[i]) else NaN));
    after := before.(route := route);
  }

  // ---------------------------------------------------------------- getAdapters and its callers

  method GroupExchanges(m: Choice, exchanges: seq<SwapExchange>) returns (g: Groups)
    requires Chosen(m, exchanges)
    ensures g == GroupAll(m, exchanges)
  {
    g := Groups([], map[]);
    for i := 0 to |exchanges|
      invariant Chosen(m, exchanges[..i]) && g == GroupAll(m, exchanges[..i])
    {
      assert exchanges[..i + 1][..i] == exchanges[..i];
      g := AddExchange(m, g, exchanges[i]);
    }
    assert exchanges[..|exchanges|] == exchanges;
  }

  /** The adapters handed out: the groups in order of first use, with exact shares. */
  ghost predicate Outcome(g: Groups, adapters: seq<ContractAdapter>) {
    && Consistent(g) && AllPointed(g)
    && |adapters| == |g.keys|
    && (forall t :: 0 <= t < |g.keys| ==> SharesFixed(g.entries[g.keys[t]], adapters[t]))
  }

  method FixAll(g: Groups) returns (adapters: seq<ContractAdapter>)
    requires Consistent(g) && AllPointed(g)
    ensures Outcome(g, adapters)
  {
    adapters := [];
    for j := 0 to |g.keys|
      invariant |adapters| == j
      invariant forall t :: 0 <= t < j ==> SharesFixed(g.entries[g.keys[t]], adapters[t])
    {
      var fixed := FixShares(g.entries[g.keys[j]]);
      adapters := adapters + [fixed];
    }
  }

  lemma ChoiceFor(ts: Tables, exchanges: seq<SwapExchange>)
    requires OptimalMap(ts, Names(exchanges), SELL).Success?
    ensures Chosen(OptimalMap(ts, Names(exchanges), SELL).value, exchanges)
  {
    AssignedTheorem(ts, Names(exchanges));
    assert forall i :: 0 <= i < |exchanges| ==> Names(exchanges)[i] == exchanges[i].exchange;
  }

  /** The adapters of one hop: the groups of its exchanges under the greedy choice. */
  ghost predicate AdaptersOf(ts: Tables, exchanges: seq<SwapExchange>, adapters: seq<ContractAdapter>) {
    && OptimalMap(ts, Names(exchanges), SELL).Success?
    && Chosen(OptimalMap(ts, Names(exchanges), SELL).value, exchanges)
    && Outcome(GroupAll(OptimalMap(ts, Names(exchanges), SELL).value, exchanges), adapters)
  }

  method GetAdapters(ts: Tables, exchanges: seq<SwapExchange>) returns (r: Result<seq<ContractAdapter>, MapError>)
    ensures match OptimalMap(ts, Names(exchanges), SELL)
            case Failure(e) => r == Failure(e)
            case Success(_) => r.Success? && AdaptersOf(ts, exchanges, r.value)
  {
    var choice := GetOptimalExchangeAdapterMap(ts, Names(exchanges), SELL);
    if choice.Failure? {
      return Failure(choice.error);
    }
    ChoiceFor(ts, exchanges);
    FeeTheorem(choice.value, exchanges);
    GroupsPointed(choice.value, exchanges);
    var g := GroupExchanges(choice.value, exchanges);
    var adapters := FixAll(g);
    r := Success(adapters);
  }

  function AdapterFees(adapters: seq<ContractAdapter>): int {
    if adapters == [] then 0 else AdapterFees(adapters[..|adapters| - 1]) + adapters[|adapters| - 1].networkFee
  }

  lemma {:induction false} FeesMatch(keys: seq<string>, entries: map<string, ContractAdapter>, adapters: seq<ContractAdapter>)
    requires |adapters| == |keys| && forall k :: k in keys ==> k in entries
    requires forall t :: 0 <= t < |keys| ==> adapters[t].networkFee == entries[keys[t]].networkFee
    ensures AdapterFees(adapters) == TotalFees(keys, entries)
  {
    if keys != [] {
      FeesMatch(keys[..|keys| - 1], entries, adapters[..|adapters| - 1]);
    }
  }

  /** The adapters handed out charge what the exchanges of the hop ask for. */
  lemma OutcomeFees(ts: Tables, exchanges: seq<SwapExchange>, adapters: seq<ContractAdapter>)
    requires AdaptersOf(ts, exchanges, adapters)
    ensures AdapterFees(adapters) == ExchangeFees(exchanges)
  {
    var m := OptimalMap(ts, Names(exchanges), SELL).value;
    var g := GroupAll(m, exchanges);
    FeeTheorem(m, exchanges);
    forall t | 0 <= t < |g.keys| ensures adapters[t].networkFee == g.entries[g.keys[t]].networkFee {
      assert SharesFixed(g.entries[g.keys[t]], adapters[t]);
    }
    FeesMatch(g.keys, g.entries, adapters);
  }

  datatype ContractPath = ContractPath(to: string, totalNetworkFee: int, adapters: seq<ContractAdapter>)

  datatype Swap = Swap(destToken: string, exchanges: seq<SwapExchange>)

  function SwapFees(swaps: seq<Swap>): int {
    if swaps == [] then 0 else SwapFees(swaps[..|swaps| - 1]) + ExchangeFees(swaps[|swaps| - 1].exchanges)
  }

  method SumFees(adapters: seq<ContractAdapter>) returns (total: int)
    ensures total == AdapterFees(adapters)
  {
    total := 0;
    for i := 0 to |adapters|
      invariant total == AdapterFees(adapters[..i])
    {
      assert adapters[..i + 1][..i] == adapters[..i];
      total := total + adapters[i].networkFee;
    }
    assert adapters[..|adapters|] == adapters;
  }

  ghost predicate PathOf(ts: Tables, s: Swap, p: ContractPath) {
    && p.to == s.destToken
    && p.totalNetworkFee == ExchangeFees(s.exchanges)
    && AdaptersOf(ts, s.exchanges, p.adapters)
  }

  method GetContractPath(ts: Tables, s: Swap) returns (r: Result<ContractPath, MapError>)
    ensures match OptimalMap(ts, Names(s.exchanges), SELL)
            case Failure(e) => r == Failure(e)
            case Success(_) => r.Success? && PathOf(ts, s, r.value)
  {
    var adapters := GetAdapters(ts, s.exchanges);
    if adapters.Failure? {
      return Failure(adapters.error);
    }
    var totalPathNetworkFee := SumFees(adapters.value);
    OutcomeFees(ts, s.exchanges, adapters.value);
    r := Success(ContractPath(s.destToken, totalPathNetworkFee, adapters.value));
  }

  /** All hops of a route; the fee returned is what all their exchanges ask for together. */
  method GetContractPathsWithNetworkFee(ts: Tables, swaps: seq<Swap>)
    returns (r: Result<seq<ContractPath>, MapError>, totalNetworkFee: int)
    ensures r.Success? ==>
              && totalNetworkFee == SwapFees(swaps)
              && |r.value| == |swaps| && forall i :: 0 <= i < |swaps| ==> PathOf(ts, swaps[i], r.value[i])
    ensures r.Failure? ==> exists i :: 0 <= i < |swaps| && OptimalMap(ts, Names(swaps[i].exchanges), SELL) == Failure(r.error)
  {
    var paths: seq<ContractPath> := [];
    totalNetworkFee := 0;
    for i := 0 to |swaps|
      invariant |paths| == i && totalNetworkFee == SwapFees(swaps[..i])
      invariant forall j :: 0 <= j < i ==> PathOf(ts, swaps[j], paths[j])
    {
      assert swaps[..i + 1][..i] == swaps[..i];
      var path := GetContractPath(ts, swaps[i]);
      if path.Failure? {
        return Failure(path.error), 0;
      }
      totalNetworkFee := totalNetworkFee + path.value.totalNetworkFee;
      paths := paths + [path.value];
    }
    assert swaps[..|swaps|] == swaps;
    r := Success(paths);
  }

  datatype MegaPath = MegaPath(fromAmountPercent: int, path: seq<ContractPath>)

  datatype Route = Route(percent: real, swaps: seq<Swap>)

  function RouteFees(routes: seq<Route>): int {
    if routes == [] then 0 else RouteFees(routes[..|routes| - 1]) + SwapFees(routes[|routes| - 1].swaps)
  }

  ghost predicate MegaPathOf(ts: Tables, r: Route, p: MegaPath) {
    && p.fromAmountPercent == Rounded(r.percent * 100.0)
    && |p.path| == |r.swaps| && forall i :: 0 <= i < |r.swaps| ==> PathOf(ts, r.swaps[i], p.path[i])
  }

  /** All routes together: the fee is again what all exchanges of all hops of all routes ask for. */
  method GetMegaSwapPathsWithNetworkFee(ts: Tables, routes: seq<Route>)
    returns (r: Result<seq<MegaPath>, MapError>, totalNetworkFee: int)
    ensures r.Success? ==>
              && totalNetworkFee == RouteFees(routes)
              && |r.value| == |routes| && forall i :: 0 <= i < |routes| ==> MegaPathOf(ts, routes[i], r.value[i])
  {
    var megaPaths: seq<MegaPath> := [];
    totalNetworkFee := 0;
    for i := 0 to |routes|
      invariant |megaPaths| == i && totalNetworkFee == RouteFees(routes[..i])
      invariant forall j :: 0 <= j < i ==> MegaPathOf(ts, routes[j], megaPaths[j])
    {
      assert routes[..i + 1][..i] == routes[..i];
      var paths, networkFee := GetContractPathsWithNetworkFee(ts, routes[i].swaps);
      if paths.Failure? {
        return Failure(paths.error), 0;
      }
      totalNetworkFee := totalNetworkFee + networkFee;
      megaPaths := megaPaths + [MegaPath(Rounded(routes[i].percent * 100.0), paths.value)];
    }
    assert routes[..|routes|] == routes;
    r := Success(megaPaths);
  }

  // ---------------------------------------------------------------- what each entry says

  /** The positions in the swap of the exchanges assigned to an adapter, in order. */
  ghost function Positions(m: Choice, exchanges: seq<SwapExchange>, n: nat, adapter: string): seq<nat>
    requires Chosen(m, exchanges) && n <= |exchanges|
  {
    if n == 0 then []
    else
      Positions(m, exchanges, n - 1, adapter)
      + if m[Lower(exchanges[n - 1].exchange)].adapter == adapter then [n - 1] else []
  }

  /** The entry has the index of the exchange's own configuration, its share to the nearest basis point, its fee and its payload. */
  ghost predicate EntryFor(m: Choice, se: SwapExchange, e: RouteEntry) {
    && Lower(se.exchange) in m && e.index == m[Lower(se.exchange)].index
    && e.percent.Bps? && -0.5 <= e.percent.bps as real - 100.0 * se.percent <= 0.5
    && e.networkFee == se.networkFee && e.payload == se.payload
  }

  lemma EntryIs(m: Choice, se: SwapExchange)
    requires Lower(se.exchange) in m
    ensures EntryFor(m, se, Entry(m, se))
  {
    RoundedTheorem(se.percent * 100.0);
  }

  /** The positions ascend, and are exactly those of the exchanges assigned to the adapter. */
  ghost predicate Ascends(m: Choice, exchanges: seq<SwapExchange>, n: nat, adapter: string, at: seq<nat>)
    requires Chosen(m, exchanges) && n <= |exchanges|
  {
    && (forall t :: 0 <= t < |at| ==> at[t] < n)
    && (forall t, u :: 0 <= t < u < |at| ==> at[t] < at[u])
    && (forall i :: 0 <= i < n ==> (i in at <==> m[Lower(exchanges[i].exchange)].adapter == adapter))
  }

  lemma AscendsOneMore(m: Choice, exchanges: seq<SwapExchange>, n: nat, adapter: string, at: seq<nat>)
    requires Chosen(m, exchanges) && n < |exchanges| && Ascends(m, exchanges, n, adapter, at)
    ensures m[Lower(exchanges[n].exchange)].adapter == adapter ==> Ascends(m, exchanges, n + 1, adapter, at + [n])
    ensures m[Lower(exchanges[n].exchange)].adapter != adapter ==> Ascends(m, exchanges, n + 1, adapter, at)
  {
    assert n !in at;
    var more := at + [n];
    forall i | 0 <= i < n ensures i in more <==> i in at {
      if i in at {
        var t :| 0 <= t < |at| && at[t] == i;
        assert more[t] == i;
      }
    }
    assert more[|at|] == n;
  }

  lemma {:induction false} PositionsAscend(m: Choice, exchanges: seq<SwapExchange>, n: nat, adapter: string)
    requires Chosen(m, exchanges) && n <= |exchanges|
    ensures Ascends(m, exchanges, n, adapter, Positions(m, exchanges, n, adapter))
  {
    if n > 0 {
      var last := n - 1;
      var at := Positions(m, exchanges, last, adapter);
      PositionsAscend(m, exchanges, last, adapter);
      AscendsOneMore(m, exchanges, last, adapter, at);
      assert at + [] == at;
    }
  }

  lemma {:induction false} PositionsPrefix(m: Choice, exchanges: seq<SwapExchange>, k: nat, n: nat, adapter: string)
    requires Chosen(m, exchanges) && n <= k <= |exchanges|
    ensures Positions(m, exchanges[..k], n, adapter) == Positions(m, exchanges, n, adapter)
  {
    if n > 0 {
      PositionsPrefix(m, exchanges, k, n - 1, adapter);
    }
  }

  ghost predicate EntriesFor(m: Choice, exchanges: seq<SwapExchange>, at: seq<nat>, route: seq<RouteEntry>) {
    |route| == |at| && forall t :: 0 <= t < |at| ==> at[t] < |exchanges| && EntryFor(m, exchanges[at[t]], route[t])
  }

  lemma EntriesOneMore(m: Choice, before: seq<SwapExchange>, exchanges: seq<SwapExchange>, at: seq<nat>, route: seq<RouteEntry>,
                       e: RouteEntry)
    requires exchanges != [] && before == exchanges[..|exchanges| - 1] && EntriesFor(m, before, at, route)
    ensures EntriesFor(m, exchanges, at, route)
    ensures EntryFor(m, exchanges[|exchanges| - 1], e) ==> EntriesFor(m, exchanges, at + [|exchanges| - 1], route + [e])
  {
  }

  lemma {:induction false} RouteEntries(m: Choice, exchanges: seq<SwapExchange>, adapter: string)
    requires Chosen(m, exchanges)
    ensures EntriesFor(m, exchanges, Positions(m, exchanges, |exchanges|, adapter), RouteOf(m, exchanges, adapter))
  {
    if exchanges != [] {
      var last := |exchanges| - 1;
      var before := exchanges[..last];
      RouteEntries(m, before, adapter);
      PositionsPrefix(m, exchanges, last, last, adapter);
      EntryIs(m, exchanges[last]);
      EntriesOneMore(m, before, exchanges, Positions(m, exchanges, last, adapter), RouteOf(m, before, adapter),
                     Entry(m, exchanges[last]));
      if m[Lower(exchanges[last].exchange)].adapter != adapter {
        assert RouteOf(m, exchanges, adapter) == RouteOf(m, before, adapter) + [] == RouteOf(m, before, adapter);
        assert Positions(m, exchanges, |exchanges|, adapter) == Positions(m, exchanges, last, adapter) + [] == Positions(m, exchanges, last, adapter);
      }
    }
  }

  /**
   A route says of each of its exchanges, in the order of the swap and of no other, the index in the
   exchange's own configuration, its share, its fee and its payload.
   */
  lemma EntriesTheorem(m: Choice, exchanges: seq<SwapExchange>, adapter: string)
    requires Chosen(m, exchanges)
    ensures Ascends(m, exchanges, |exchanges|, adapter, Positions(m, exchanges, |exchanges|, adapter))
    ensures EntriesFor(m, exchanges, Positions(m, exchanges, |exchanges|, adapter), RouteOf(m, exchanges, adapter))
  {
    PositionsAscend(m, exchanges, |exchanges|, adapter);
    RouteEntries(m, exchanges, adapter);
  }

  /** The exact shares of the exchanges assigned to an adapter, in basis points. */
  ghost function ShareSum(m: Choice, exchanges: seq<SwapExchange>, adapter: string): real
    requires Chosen(m, exchanges)
  {
    if exchanges == [] then 0.0
    else
      var last := exchanges[|exchanges| - 1];
      ShareSum(m, exchanges[..|exchanges| - 1], adapter)
      + if m[Lower(last.exchange)].adapter == adapter then 100.0 * last.percent else 0.0
  }

  predicate WholeShares(exchanges: seq<SwapExchange>) {
    forall i :: 0 <= i < |exchanges| ==> (exchanges[i].percent * 100.0).Floor as real == exchanges[i].percent * 100.0
  }

  lemma WholeRounded(k: int)
    ensures Rounded(k as real) == k
  {
  }

  lemma ShareAdded(before: int, x: real)
    ensures -0.5 <= Rounded(before as real + x) as real - (before as real + x) <= 0.5
    ensures x.Floor as real == x ==> Rounded(before as real + x) as real == before as real + x
  {
    RoundedTheorem(before as real + x);
    if x.Floor as real == x {
      WholeRounded(before + x.Floor);
    }
  }

  /** A running share: within half a point an entry of the exact sum, and exact if every share is whole. */
  ghost predicate Runs(share: int, exact: real, n: nat, whole: bool) {
    && -0.5 * n as real <= share as real - exact <= 0.5 * n as real
    && (whole ==> share as real == exact)
  }

  lemma RunsOn(share: int, exact: real, n: nat, whole: bool, x: real)
    requires Runs(share, exact, n, whole)
    ensures Runs(Rounded(share as real + x), exact + x, n + 1, whole && x.Floor as real == x)
  {
    ShareAdded(share, x);
  }

  function RunningShare(g: Groups, adapter: string): int {
    if adapter in g.entries then g.entries[adapter].percent else 0
  }

  lemma ShareStep(m: Choice, g: Groups, se: SwapExchange, adapter: string)
    requires Lower(se.exchange) in m
    ensures var g' := AddExchange(m, g, se);
            RunningShare(g', adapter) == if m[Lower(se.exchange)].adapter == adapter
                                         then Rounded(RunningShare(g, adapter) as real + 100.0 * se.percent)
                                         else RunningShare(g, adapter)
  {
  }

  /** Every addition to an adapter's share is rounded, and whole shares add up exactly. */
  lemma {:induction false} AdapterShareTheorem(m: Choice, exchanges: seq<SwapExchange>, adapter: string)
    requires Chosen(m, exchanges)
    ensures Runs(RunningShare(GroupAll(m, exchanges), adapter), ShareSum(m, exchanges, adapter),
                 |RouteOf(m, exchanges, adapter)|, WholeShares(exchanges))
  {
    if exchanges != [] {
      var last := |exchanges| - 1;
      var before, se := exchanges[..last], exchanges[last];
      var x := 100.0 * se.percent;
      var g := GroupAll(m, before);
      AdapterShareTheorem(m, before, adapter);
      assert WholeShares(exchanges) ==> WholeShares(before) && x.Floor as real == x;
      ShareStep(m, g, se, adapter);
      RunsOn(RunningShare(g, adapter), ShareSum(m, before, adapter), |RouteOf(m, before, adapter)|, WholeShares(before), x);
    }
  }
}
