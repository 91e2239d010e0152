/** initReservesByHelper and configureReservesByHelper: one rate contract per strategy name, and batches of
    parameters for the configurator. */
module Reserves {
  import opened Chunks
  import opened Common

  datatype Strategy = Strategy(name: string, optimalUtilizationRate: string, baseVariableBorrowRate: string,
                               variableRateSlope1: string, variableRateSlope2: string)

  datatype ReserveParams = ReserveParams(bTokenImpl: string, reserveDecimals: string, reserveFactor: string,
                                         borrowingEnabled: bool, strategy: Strategy)

  datatype Reserve = Reserve(symbol: string, params: ReserveParams)

  // The constructor arguments of a deployed rate contract.
  datatype RateArgs = RateArgs(provider: Address, optimalUtilizationRate: string, baseVariableBorrowRate: string,
                               variableRateSlope1: string, variableRateSlope2: string)

  // A rate contract's address is its place among the chain's deployments.
  datatype InitParam = InitParam(bTokenImpl: Address, debtTokenImpl: Address, underlyingAssetDecimals: string,
                                 interestRateAddress: nat, underlyingAsset: Address, treasury: Address,
                                 underlyingAssetName: string, bTokenName: string, bTokenSymbol: string,
                                 debtTokenName: string, debtTokenSymbol: string)

  datatype ConfigParam = ConfigParam(asset: Address, reserveFactor: string, maxUtilizationRate: nat)

  // What a run of the helper is given besides the reserves.
  datatype Settings = Settings(provider: Address, tokenAddresses: map<string, Address>,
                               implementations: map<string, Address>,
                               bTokenNamePrefix: string, bTokenSymbolPrefix: string,
                               debtTokenNamePrefix: string, debtTokenSymbolPrefix: string, collector: Address)

  const DEBT_TOKEN := "DebtToken"
  const INIT_CHUNKS: nat := 1
  const ENABLE_CHUNKS: nat := 20
  const MAX_UTILIZATION_RATE: nat := 750_000_000_000_000_000_000_000_000

  // tokenAddresses[symbol] is neither missing nor empty
  predicate HasAddress(tokens: map<string, Address>, symbol: string) {
    symbol in tokens && tokens[symbol] != ""
  }

  predicate AllHaveAddress(reserves: seq<Reserve>, tokens: map<string, Address>) {
    forall r :: r in reserves ==> HasAddress(tokens, r.symbol)
  }

  // The reserves that are not skipped, in order.
  function Included(reserves: seq<Reserve>, tokens: map<string, Address>): (r: seq<Reserve>)
    ensures AllHaveAddress(r, tokens)
  {
    if reserves == [] then [] else
      var n := |reserves| - 1;
      Included(reserves[..n], tokens) + if HasAddress(tokens, reserves[n].symbol) then [reserves[n]] else []
  }

  function Args(provider: Address, s: Strategy): RateArgs {
    RateArgs(provider, s.optimalUtilizationRate, s.baseVariableBorrowRate, s.variableRateSlope1, s.variableRateSlope2)
  }

  // A contract was deployed with a provider and a strategy's four rates.
  ghost predicate HasRates(args: RateArgs, provider: Address, s: Strategy) {
    && args.provider == provider
    && args.optimalUtilizationRate == s.optimalUtilizationRate
    && args.baseVariableBorrowRate == s.baseVariableBorrowRate
    && args.variableRateSlope1 == s.variableRateSlope1 && args.variableRateSlope2 == s.variableRateSlope2
  }

  // Strategy names in the order of their first use.
  function Names(reserves: seq<Reserve>): seq<string> {
    if reserves == [] then [] else
      var n := |reserves| - 1;
      var name := reserves[n].params.strategy.name;
      var before := Names(reserves[..n]);
      if name in before then before else before + [name]
  }

  // The rate contracts the reserves cause to be deployed, one beside each name.
  function Deployed(provider: Address, reserves: seq<Reserve>): seq<RateArgs> {
    if reserves == [] then [] else
      var n := |reserves| - 1;
      var s := reserves[n].params.strategy;
      var before := Deployed(provider, reserves[..n]);
      if s.name in Names(reserves[..n]) then before else before + [Args(provider, s)]
  }

  function BuildParam(settings: Settings, reserve: Reserve, rateContract: nat): InitParam
    requires HasAddress(settings.tokenAddresses, reserve.symbol)
    requires reserve.params.bTokenImpl in settings.implementations && DEBT_TOKEN in settings.implementations
  {
    var symbol := reserve.symbol;
    InitParam(settings.implementations[reserve.params.bTokenImpl], settings.implementations[DEBT_TOKEN],
              reserve.params.reserveDecimals, rateContract, settings.tokenAddresses[symbol], settings.collector, symbol,
              settings.bTokenNamePrefix + " " + symbol, settings.bTokenSymbolPrefix + symbol,
              settings.debtTokenNamePrefix + " " + symbol, settings.debtTokenSymbolPrefix + symbol)
  }

  // A record says of its reserve what it is initialised with.
  ghost predicate IsRecord(settings: Settings, reserve: Reserve, record: InitParam)
    requires HasAddress(settings.tokenAddresses, reserve.symbol) && HasImplementations(settings, reserve)
  {
    && record.bTokenImpl == settings.implementations[reserve.params.bTokenImpl]
    && record.debtTokenImpl == settings.implementations["DebtToken"]
    && record.underlyingAssetDecimals == reserve.params.reserveDecimals
    && record.underlyingAsset == settings.tokenAddresses[reserve.symbol]
    && record.treasury == settings.collector && record.underlyingAssetName == reserve.symbol
    && record.bTokenName == settings.bTokenNamePrefix + " " + reserve.symbol
    && record.bTokenSymbol == settings.bTokenSymbolPrefix + reserve.symbol
    && record.debtTokenName == settings.debtTokenNamePrefix + " " + reserve.symbol
    && record.debtTokenSymbol == settings.debtTokenSymbolPrefix + reserve.symbol
  }

  predicate HasImplementations(settings: Settings, reserve: Reserve) {
    reserve.params.bTokenImpl in settings.implementations && DEBT_TOKEN in settings.implementations
  }

  // The k-th record describes the k-th included reserve and points at its name's contract, `base` being the
  // number of contracts deployed before.
  ghost predicate AreRecords(settings: Settings, included: seq<Reserve>, base: nat, records: seq<InitParam>) {
    && |records| == |included|
    && forall k :: 0 <= k < |records| ==>
         var name := included[k].params.strategy.name;
         var place := records[k].interestRateAddress - base;
         && HasAddress(settings.tokenAddresses, included[k].symbol)
         && HasImplementations(settings, included[k])
         && 0 <= place < |Names(included)| && Names(included)[place] == name
         && IsRecord(settings, included[k], records[k])
  }

  // The cached address of a name is its contract's.
  ghost predicate Caches(included: seq<Reserve>, base: nat, strategyAddresses: map<string, nat>) {
    && (forall name :: name in strategyAddresses <==> name in Names(included))
    && (forall name :: name in strategyAddresses ==>
          base <= strategyAddresses[name] < base + |Names(included)| &&
          Names(included)[strategyAddresses[name] - base] == name)
  }

  // The place of the first included reserve without an implementation.
  ghost predicate StopsAt(settings: Settings, reserves: seq<Reserve>, i: int) {
    && 0 <= i < |reserves| && HasAddress(settings.tokenAddresses, reserves[i].symbol)
    && !HasImplementations(settings, reserves[i])
    && forall j :: 0 <= j < i && HasAddress(settings.tokenAddresses, reserves[j].symbol) ==>
         HasImplementations(settings, reserves[j])
  }

  // The chain as far as the helpers touch it, and the lines they report.
  class Chain {
    var deployments: seq<RateArgs>
    var initBatches: seq<seq<InitParam>>
    var configBatches: seq<seq<ConfigParam>>
    var borrowingFlags: seq<(seq<Address>, bool)>
    var reports: seq<seq<string>>

    constructor ()
      ensures deployments == [] && initBatches == [] && configBatches == [] && borrowingFlags == [] && reports == []
    {
      deployments, initBatches, configBatches, borrowingFlags, reports := [], [], [], [], [];
    }

    method DeployRateStrategy(args: RateArgs) returns (address: nat)
      modifies this`deployments
      ensures deployments == old(deployments) + [args] && address == |old(deployments)|
    {
      address := |deployments|;
      deployments := deployments + [args];
    }
  }

  datatype Status = Done | MissingImplementation

  /** The cache lookup in front of deployRateStrategy. */
  method CachedRateContract(chain: Chain, provider: Address, reserve: Reserve, strategyAddresses: map<string, nat>,
                            ghost before: seq<Reserve>, ghost deployments0: seq<RateArgs>)
    returns (cache: map<string, nat>)
    requires Caches(before, |deployments0|, strategyAddresses)
    requires chain.deployments == deployments0 + Deployed(provider, before)
    modifies chain`deployments
    ensures Caches(before + [reserve], |deployments0|, cache)
    ensures reserve.params.strategy.name in cache
    ensures chain.deployments == deployments0 + Deployed(provider, before + [reserve])
  {
    var strategy := reserve.params.strategy;
    cache := strategyAddresses;
    NamesMatchDeployed(provider, before);
    assert (before + [reserve])[..|before|] == before;
    if strategy.name !in cache {
      var address := chain.DeployRateStrategy(Args(provider, strategy));
      cache := cache[strategy.name := address];
    }
    CacheGrows(before, reserve, |deployments0|, strategyAddresses, cache);
  }

  method PushRecord(settings: Settings, reserve: Reserve, strategyAddresses: map<string, nat>,
                    symbols: seq<string>, records: seq<InitParam>, ghost before: seq<Reserve>, ghost base: nat)
    returns (symbols': seq<string>, records': seq<InitParam>)
    requires symbols == Symbols(before) && AreRecords(settings, before, base, records)
    requires HasAddress(settings.tokenAddresses, reserve.symbol) && HasImplementations(settings, reserve)
    requires Caches(before + [reserve], base, strategyAddresses) && reserve.params.strategy.name in strategyAddresses
    ensures symbols' == Symbols(before + [reserve]) && AreRecords(settings, before + [reserve], base, records')
  {
    var initParam := BuildParam(settings, reserve, strategyAddresses[reserve.params.strategy.name]);
    RecordsGrow(settings, before, reserve, base, records, initParam, strategyAddresses);
    symbols', records' := symbols + [reserve.symbol], records + [initParam];
  }

  /** The loop over the reserves: deployments, symbols and parameter records. */
  method PrepareReserves(chain: Chain, reserves: seq<Reserve>, settings: Settings)
    returns (status: Status, reserveSymbols: seq<string>, initInputParams: seq<InitParam>)
    modifies chain`deployments
    ensures var included := Included(reserves, settings.tokenAddresses);
            if status == Done then
              && reserveSymbols == Symbols(included)
              && AreRecords(settings, included, |old(chain.deployments)|, initInputParams)
              && chain.deployments == old(chain.deployments) + Deployed(settings.provider, included)
            else
              exists i :: StopsAt(settings, reserves, i) && chain.deployments ==
                          old(chain.deployments) +
                            Deployed(settings.provider, Included(reserves[..i + 1], settings.tokenAddresses))
  {
    hide AreRecords, Caches, Deployed, Included, HasAddress, HasImplementations;
    ghost var deployments0, tokens := chain.deployments, settings.tokenAddresses;
    ghost var base := |deployments0|;
    ghost var included: seq<Reserve> := [];
    reserveSymbols, initInputParams := [], [];
    var strategyAddresses: map<string, nat> := map[];
    NothingIncluded(settings, base);
    for i := 0 to |reserves|
      invariant included == Included(reserves[..i], tokens)
      invariant reserveSymbols == Symbols(included)
      invariant AreRecords(settings, included, base, initInputParams)
      invariant chain.deployments == deployments0 + Deployed(settings.provider, included)
      invariant Caches(included, base, strategyAddresses)
      invariant forall j :: 0 <= j < i && HasAddress(tokens, reserves[j].symbol) ==>
                HasImplementations(settings, reserves[j])
    {
      var reserve := reserves[i];
      IncludedStep(reserves, tokens, i);
      if !HasAddress(settings.tokenAddresses, reserve.symbol) {
        continue;
      }
      ghost var before := included;
      included := included + [reserve];
      strategyAddresses := CachedRateContract(chain, settings.provider, reserve, strategyAddresses, before,
                                              deployments0);
      if !HasImplementations(settings, reserve) {
        assert StopsAt(settings, reserves, i);
        return MissingImplementation, [], [];
      }
      reserveSymbols, initInputParams :=
        PushRecord(settings, reserve, strategyAddresses, reserveSymbols, initInputParams, before, base);
    }
    assert reserves[..|reserves|] == reserves;
    status := Done;
  }

  method InitReservesByHelper(chain: Chain, reserves: seq<Reserve>, settings: Settings)
    returns (status: Status, initInputParams: seq<InitParam>)
    modifies chain`deployments, chain`initBatches, chain`reports
    ensures var included := Included(reserves, settings.tokenAddresses);
            if status == Done then
              && AreRecords(settings, included, |old(chain.deployments)|, initInputParams)
              && chain.deployments == old(chain.deployments) + Deployed(settings.provider, included)
              && chain.initBatches == old(chain.initBatches) + Chunk(initInputParams, 1)
              && chain.reports == old(chain.reports) + Chunk(Symbols(included), 1)
            else
              && (exists i :: StopsAt(settings, reserves, i) && chain.deployments ==
                              old(chain.deployments) +
                                Deployed(settings.provider, Included(reserves[..i + 1], settings.tokenAddresses)))
              && chain.initBatches == old(chain.initBatches) && chain.reports == old(chain.reports)
  {
    var reserveSymbols;
    status, reserveSymbols, initInputParams := PrepareReserves(chain, reserves, settings);
    if status == Done {
      SubmitInitBatches(chain, reserveSymbols, initInputParams);
    }
  }

  function Symbols(reserves: seq<Reserve>): seq<string> {
    seq(|reserves|, k requires 0 <= k < |reserves| => reserves[k].symbol)
  }

  // The second half of initReservesByHelper: one transaction a chunk, reporting the chunk's symbols.
  method SubmitInitBatches(chain: Chain, symbols: seq<string>, params: seq<InitParam>)
    requires |symbols| == |params|
    modifies chain`initBatches, chain`reports
    ensures chain.initBatches == old(chain.initBatches) + Chunk(params, INIT_CHUNKS)
    ensures chain.reports == old(chain.reports) + Chunk(symbols, INIT_CHUNKS)
  {
    var chunkedSymbols := Chunk(symbols, INIT_CHUNKS);
    var chunkedParams := Chunk(params, INIT_CHUNKS);
    ChunksAlign(symbols, params, INIT_CHUNKS);
    for chunkIndex := 0 to |chunkedParams|
      invariant chain.initBatches == old(chain.initBatches) + chunkedParams[..chunkIndex]
      invariant chain.reports == old(chain.reports) + chunkedSymbols[..chunkIndex]
    {
      chain.initBatches := chain.initBatches + [chunkedParams[chunkIndex]];
      chain.reports := chain.reports + [chunkedSymbols[chunkIndex]];
    }
    assert chunkedParams[..|chunkedParams|] == chunkedParams && chunkedSymbols[..|chunkedSymbols|] == chunkedSymbols;
  }

  function Configs(reserves: seq<Reserve>, tokens: map<string, Address>): seq<ConfigParam>
    requires AllHaveAddress(reserves, tokens)
  {
    seq(|reserves|, k requires 0 <= k < |reserves| =>
      ConfigParam(tokens[reserves[k].symbol], reserves[k].params.reserveFactor, MAX_UTILIZATION_RATE))
  }

  // The addresses of the reserves that may be borrowed, in order.
  function Borrowable(reserves: seq<Reserve>, tokens: map<string, Address>): seq<Address>
    requires AllHaveAddress(reserves, tokens)
  {
    if reserves == [] then [] else
      var n := |reserves| - 1;
      Borrowable(reserves[..n], tokens) +
      if reserves[n].params.borrowingEnabled then [tokens[reserves[n].symbol]] else []
  }

  method ConfigureReservesByHelper(chain: Chain, reserves: seq<Reserve>, tokenAddresses: map<string, Address>)
    modifies chain`configBatches, chain`borrowingFlags, chain`reports
    ensures var included := Included(reserves, tokenAddresses);
            if |included| == 0 then
              chain.configBatches == old(chain.configBatches) && chain.borrowingFlags == old(chain.borrowingFlags) &&
              chain.reports == old(chain.reports)
            else
              && chain.configBatches ==
                   old(chain.configBatches) + Chunk(Configs(included, tokenAddresses), 20)
              && chain.reports == old(chain.reports) + Chunk(Symbols(included), 20)
              && chain.borrowingFlags == old(chain.borrowingFlags) + [(Borrowable(included, tokenAddresses), true)]
  {
    var symbols, inputParams, assetsParams := CollectConfigs(reserves, tokenAddresses);
    if |symbols| != 0 {
      SubmitConfigBatches(chain, symbols, inputParams);
      chain.borrowingFlags := chain.borrowingFlags + [(assetsParams, true)];
    }
  }

  /** The loop over the reserves: symbols, parameters and the addresses to flag, pushed side by side. */
  method CollectConfigs(reserves: seq<Reserve>, tokenAddresses: map<string, Address>)
    returns (symbols: seq<string>, inputParams: seq<ConfigParam>, assetsParams: seq<Address>)
    ensures var included := Included(reserves, tokenAddresses);
            && symbols == Symbols(included)
            && inputParams == Configs(included, tokenAddresses)
            && assetsParams == Borrowable(included, tokenAddresses)
  {
    hide Borrowable;
    symbols, inputParams, assetsParams := [], [], [];
    NoConfigs(tokenAddresses);
    ghost var included: seq<Reserve> := [];
    for i := 0 to |reserves|
      invariant included == Included(reserves[..i], tokenAddresses)
      invariant symbols == Symbols(included)
      invariant inputParams == Configs(included, tokenAddresses)
      invariant assetsParams == Borrowable(included, tokenAddresses)
    {
      var reserve := reserves[i];
      IncludedStep(reserves, tokenAddresses, i);
      if !HasAddress(tokenAddresses, reserve.symbol) {
        continue;
      }
      ConfigsGrow(included, reserve, tokenAddresses);
      included := included + [reserve];
      var tokenAddress := tokenAddresses[reserve.symbol];
      if reserve.params.borrowingEnabled {
        assetsParams := assetsParams + [tokenAddress];
      }
      inputParams := inputParams + [ConfigParam(tokenAddress, reserve.params.reserveFactor, MAX_UTILIZATION_RATE)];
      symbols := symbols + [reserve.symbol];
    }
    assert reserves[..|reserves|] == reserves;
  }

  lemma NoConfigs(tokens: map<string, Address>)
    ensures Symbols([]) == [] && Configs([], tokens) == [] && Borrowable([], tokens) == []
  {
  }

  lemma ConfigsGrow(before: seq<Reserve>, reserve: Reserve, tokens: map<string, Address>)
    requires AllHaveAddress(before, tokens) && HasAddress(tokens, reserve.symbol)
    ensures AllHaveAddress(before + [reserve], tokens)
    ensures Symbols(before + [reserve]) == Symbols(before) + [reserve.symbol]
    ensures Configs(before + [reserve], tokens) ==
            Configs(before, tokens) +
              [ConfigParam(tokens[reserve.symbol], reserve.params.reserveFactor, MAX_UTILIZATION_RATE)]
    ensures Borrowable(before + [reserve], tokens) ==
            Borrowable(before, tokens) + if reserve.params.borrowingEnabled then [tokens[reserve.symbol]] else []
  {
    assert (before + [reserve])[..|before|] == before;
  }

  method SubmitConfigBatches(chain: Chain, symbols: seq<string>, params: seq<ConfigParam>)
    requires |symbols| == |params|
    modifies chain`configBatches, chain`reports
    ensures chain.configBatches == old(chain.configBatches) + Chunk(params, ENABLE_CHUNKS)
    ensures chain.reports == old(chain.reports) + Chunk(symbols, ENABLE_CHUNKS)
  {
    var chunkedSymbols := Chunk(symbols, ENABLE_CHUNKS);
    var chunkedParams := Chunk(params, ENABLE_CHUNKS);
    ChunksAlign(symbols, params, ENABLE_CHUNKS);
    for chunkIndex := 0 to |chunkedParams|
      invariant chain.configBatches == old(chain.configBatches) + chunkedParams[..chunkIndex]
      invariant chain.reports == old(chain.reports) + chunkedSymbols[..chunkIndex]
    {
      chain.configBatches := chain.configBatches + [chunkedParams[chunkIndex]];
      chain.reports := chain.reports + [chunkedSymbols[chunkIndex]];
    }
    assert chunkedParams[..|chunkedParams|] == chunkedParams && chunkedSymbols[..|chunkedSymbols|] == chunkedSymbols;
  }

  lemma NothingIncluded(settings: Settings, base: nat)
    ensures Included([], settings.tokenAddresses) == [] && Symbols([]) == []
    ensures AreRecords(settings, [], base, []) && Deployed(settings.provider, []) == [] && Caches([], base, map[])
  {
  }

  lemma IncludedStep(reserves: seq<Reserve>, tokens: map<string, Address>, i: nat)
    requires i < |reserves|
    ensures Included(reserves[..i + 1], tokens) ==
            Included(reserves[..i], tokens) + if HasAddress(tokens, reserves[i].symbol) then [reserves[i]] else []
  {
    assert reserves[..i + 1][..i] == reserves[..i];
  }

  lemma {:induction false} NamesMatchDeployed(provider: Address, reserves: seq<Reserve>)
    ensures |Names(reserves)| == |Deployed(provider, reserves)|
  {
    if reserves != [] {
      NamesMatchDeployed(provider, reserves[..|reserves| - 1]);
    }
  }

  lemma CacheGrows(before: seq<Reserve>, reserve: Reserve, base: nat, cached: map<string, nat>,
                   cached': map<string, nat>)
    requires Caches(before, base, cached)
    requires var name := reserve.params.strategy.name;
             cached' == if name in cached then cached else cached[name := base + |Names(before)|]
    ensures Caches(before + [reserve], base, cached')
  {
    hide Names;
    NamesGrow(before, reserve);
  }

  lemma RecordsGrow(settings: Settings, before: seq<Reserve>, reserve: Reserve, base: nat,
                    records: seq<InitParam>, record: InitParam, cache: map<string, nat>)
    requires AreRecords(settings, before, base, records)
    requires HasAddress(settings.tokenAddresses, reserve.symbol) && HasImplementations(settings, reserve)
    requires Caches(before + [reserve], base, cache) && reserve.params.strategy.name in cache
    requires record == BuildParam(settings, reserve, cache[reserve.params.strategy.name])
    ensures AreRecords(settings, before + [reserve], base, records + [record])
    ensures Symbols(before + [reserve]) == Symbols(before) + [reserve.symbol]
  {
    hide Names, Caches, HasAddress, HasImplementations, BuildParam, IsRecord;
    NamesGrow(before, reserve);
    CachedPlace(before + [reserve], base, cache, reserve.params.strategy.name);
    PointsAt(settings, reserve, cache[reserve.params.strategy.name]);
  }

  lemma PointsAt(settings: Settings, reserve: Reserve, rateContract: nat)
    requires HasAddress(settings.tokenAddresses, reserve.symbol) && HasImplementations(settings, reserve)
    ensures var record := BuildParam(settings, reserve, rateContract);
            record.interestRateAddress == rateContract && IsRecord(settings, reserve, record)
  {
  }

  lemma NamesGrow(before: seq<Reserve>, reserve: Reserve)
    ensures var name := reserve.params.strategy.name;
            Names(before + [reserve]) == if name in Names(before) then Names(before) else Names(before) + [name]
  {
    assert (before + [reserve])[..|before|] == before;
  }

  lemma CachedPlace(included: seq<Reserve>, base: nat, cache: map<string, nat>, name: string)
    requires Caches(included, base, cache) && name in cache
    ensures base <= cache[name] < base + |Names(included)| && Names(included)[cache[name] - base] == name
  {
  }

  // ---------------------------------------------------------------- what the records and deployments mean

  ghost predicate Distinct(names: seq<string>) {
    forall i, j :: 0 <= i < j < |names| ==> names[i] != names[j]
  }

  ghost predicate FirstUse(reserves: seq<Reserve>, name: string, k: int) {
    && 0 <= k < |reserves| && reserves[k].params.strategy.name == name
    && forall j :: 0 <= j < k ==> reserves[j].params.strategy.name != name
  }

  lemma {:induction false} NamesDistinct(reserves: seq<Reserve>)
    ensures Distinct(Names(reserves))
  {
    if reserves != [] {
      NamesDistinct(reserves[..|reserves| - 1]);
    }
  }

  lemma {:induction false} NamesComplete(reserves: seq<Reserve>, k: nat)
    requires k < |reserves|
    ensures reserves[k].params.strategy.name in Names(reserves)
  {
    var n := |reserves| - 1;
    if k < n {
      NamesComplete(reserves[..n], k);
      assert reserves[..n][k] == reserves[k];
    }
  }

  // The reserve whose rates the p-th contract was deployed with.
  lemma {:induction false} FirstUser(provider: Address, reserves: seq<Reserve>, p: nat) returns (k: nat)
    requires p < |Names(reserves)|
    ensures FirstUse(reserves, Names(reserves)[p], k)
    ensures p < |Deployed(provider, reserves)|
    ensures HasRates(Deployed(provider, reserves)[p], provider, reserves[k].params.strategy)
  {
    var n := |reserves| - 1;
    var rest := reserves[..n];
    NamesMatchDeployed(provider, rest);
    if p < |Names(rest)| {
      k := FirstUser(provider, rest, p);
    } else {
      forall j | 0 <= j < n ensures reserves[j].params.strategy.name in Names(rest) {
        NamesComplete(rest, j);
        assert rest[j] == reserves[j];
      }
      k := n;
    }
  }

  // The contract at place p has the rates of the first reserve that uses its name.
  ghost predicate HasFirstRates(provider: Address, reserves: seq<Reserve>, p: int)
  {
    && 0 <= p < |Names(reserves)| && p < |Deployed(provider, reserves)|
    && exists k :: FirstUse(reserves, Names(reserves)[p], k) &&
                   HasRates(Deployed(provider, reserves)[p], provider, reserves[k].params.strategy)
  }

  /** Each strategy name of the included reserves is deployed exactly once, with the rates of the first
      reserve that uses it. */
  lemma OneContractPerName(provider: Address, reserves: seq<Reserve>)
    ensures Distinct(Names(reserves))
    ensures |Deployed(provider, reserves)| == |Names(reserves)|
    ensures forall k :: 0 <= k < |reserves| ==> reserves[k].params.strategy.name in Names(reserves)
    ensures forall p :: 0 <= p < |Names(reserves)| ==> HasFirstRates(provider, reserves, p)
  {
    NamesDistinct(reserves);
    NamesMatchDeployed(provider, reserves);
    forall k | 0 <= k < |reserves| ensures reserves[k].params.strategy.name in Names(reserves) {
      NamesComplete(reserves, k);
    }
    forall p | 0 <= p < |Names(reserves)| ensures HasFirstRates(provider, reserves, p) {
      var k := FirstUser(provider, reserves, p);
    }
  }

  ghost predicate SameRates(s: Strategy, t: Strategy) {
    && s.optimalUtilizationRate == t.optimalUtilizationRate && s.baseVariableBorrowRate == t.baseVariableBorrowRate
    && s.variableRateSlope1 == t.variableRateSlope1 && s.variableRateSlope2 == t.variableRateSlope2
  }

  // Equal strategy names mean equal rates.
  ghost predicate NamesDetermineRates(reserves: seq<Reserve>) {
    forall i, j :: 0 <= i < |reserves| && 0 <= j < |reserves| &&
                   reserves[i].params.strategy.name == reserves[j].params.strategy.name ==>
                   SameRates(reserves[i].params.strategy, reserves[j].params.strategy)
  }

  // Every record points at a contract deployed with its own reserve's rates.
  ghost predicate OwnRates(provider: Address, included: seq<Reserve>, base: nat, records: seq<InitParam>,
                           deployments: seq<RateArgs>)
    requires |records| == |included|
  {
    forall k :: 0 <= k < |records| ==>
      records[k].interestRateAddress < |deployments| &&
      HasRates(deployments[records[k].interestRateAddress], provider, included[k].params.strategy)
  }

  /** The cache by name is as good as deploying a contract for each reserve exactly when the names of the
      included reserves determine their rates. */
  lemma CacheIsSoundIff(settings: Settings, included: seq<Reserve>, before: seq<RateArgs>, records: seq<InitParam>)
    requires AreRecords(settings, included, |before|, records)
    ensures OwnRates(settings.provider, included, |before|, records,
                     before + Deployed(settings.provider, included)) <==>
            NamesDetermineRates(included)
  {
    var provider, base := settings.provider, |before|;
    if OwnRates(provider, included, base, records, before + Deployed(provider, included)) {
      forall i, j | 0 <= i < |included| && 0 <= j < |included| &&
                    included[i].params.strategy.name == included[j].params.strategy.name
        ensures SameRates(included[i].params.strategy, included[j].params.strategy)
      {
        var f := RecordsContract(settings, included, before, records, i);
        var g := RecordsContract(settings, included, before, records, j);
      }
    }
    if NamesDetermineRates(included) {
      forall k | 0 <= k < |records|
        ensures records[k].interestRateAddress < |before + Deployed(provider, included)|
        ensures HasRates((before + Deployed(provider, included))[records[k].interestRateAddress], provider,
                         included[k].params.strategy)
      {
        var f := RecordsContract(settings, included, before, records, k);
        assert SameRates(included[k].params.strategy, included[f].params.strategy);
      }
    }
  }

  lemma RecordsContract(settings: Settings, included: seq<Reserve>, before: seq<RateArgs>, records: seq<InitParam>,
                        k: nat)
    returns (f: nat)
    requires AreRecords(settings, included, |before|, records) && k < |records|
    ensures FirstUse(included, included[k].params.strategy.name, f)
    ensures var deployments := before + Deployed(settings.provider, included);
            records[k].interestRateAddress < |deployments| &&
            HasRates(deployments[records[k].interestRateAddress], settings.provider, included[f].params.strategy)
  {
    f := FirstUser(settings.provider, included, records[k].interestRateAddress - |before|);
  }

  /** The batches of either helper together are its records, each once and in order, and the reported
      symbols run in step with them: the symbol at any place of any batch is that record's own. */
  lemma BatchesAreRecords<T>(records: seq<T>, symbols: seq<string>, size: nat)
    requires size in {INIT_CHUNKS, ENABLE_CHUNKS} && |records| == |symbols|
    ensures Flatten(Chunk(records, size)) == records && Flatten(Chunk(symbols, size)) == symbols
    ensures |Chunk(records, size)| == |Chunk(symbols, size)|
    ensures forall k, j :: 0 <= k < |Chunk(records, size)| && 0 <= j < |Chunk(records, size)[k]| ==>
              j < |Chunk(symbols, size)[k]| && 0 <= k * size + j < |records| &&
              Chunk(records, size)[k][j] == records[k * size + j] && Chunk(symbols, size)[k][j] == symbols[k * size + j]
  {
    ChunksFlattenIff(records, size);
    ChunksFlattenIff(symbols, size);
    ChunksAlign(records, symbols, size);
  }

  /** The flagged addresses are exactly those of the configured reserves that allow borrowing. */
  lemma {:induction false} BorrowableIff(reserves: seq<Reserve>, tokens: map<string, Address>, a: Address)
    requires AllHaveAddress(reserves, tokens)
    ensures a in Borrowable(reserves, tokens) <==>
            exists k :: 0 <= k < |reserves| && reserves[k].params.borrowingEnabled && tokens[reserves[k].symbol] == a
  {
    if reserves != [] {
      var n := |reserves| - 1;
      BorrowableIff(reserves[..n], tokens, a);
      assert forall k :: 0 <= k < n ==> reserves[..n][k] == reserves[k];
    }
  }

  /** A reserve is included exactly when it is listed and has a token address. */
  lemma {:induction false} IncludedIff(reserves: seq<Reserve>, tokens: map<string, Address>, r: Reserve)
    ensures r in Included(reserves, tokens) <==> r in reserves && HasAddress(tokens, r.symbol)
  {
    if reserves != [] {
      var n := |reserves| - 1;
      IncludedIff(reserves[..n], tokens, r);
      assert r in reserves <==> r in reserves[..n] || r == reserves[n];
    }
  }

  // `picked` holds what a list has at the wanted places and at no other, in the order of the list.
  ghost predicate IsPicked<T>(picked: seq<T>, all: seq<T>, wanted: seq<bool>, places: seq<nat>)
    requires |wanted| == |all|
  {
    && |picked| == |places|
    && (forall i, j :: 0 <= i < j < |places| ==> places[i] < places[j])
    && (forall i :: 0 <= i < |places| ==> places[i] < |all| && wanted[places[i]] && picked[i] == all[places[i]])
    && (forall k :: 0 <= k < |all| && wanted[k] ==> k in places)
  }

  lemma PickedGrows<T>(picked: seq<T>, all: seq<T>, wanted: seq<bool>, places: seq<nat>)
    requires |wanted| == |all| && all != []
    requires IsPicked(picked, all[..|all| - 1], wanted[..|all| - 1], places)
    ensures var n := |all| - 1;
            if wanted[n] then IsPicked(picked + [all[n]], all, wanted, places + [n])
            else IsPicked(picked, all, wanted, places)
  {
    var n := |all| - 1;
    var picked', places' := if wanted[n] then picked + [all[n]] else picked, if wanted[n] then places + [n] else places;
    forall i | 0 <= i < |places'|
      ensures places'[i] < |all| && wanted[places'[i]] && picked'[i] == all[places'[i]]
      ensures i + 1 < |places'| ==> places'[i] < n
    {
      if i < |places| {
        var k := places[i];
        assert k < n && all[..n][k] == all[k] && wanted[..n][k] == wanted[k];
      }
    }
    forall k | 0 <= k < |all| && wanted[k]
      ensures k in places'
    {
      assert k < n ==> wanted[..n][k] == wanted[k] && k in places;
    }
  }

  /** The included reserves are those listed with a token address, each once for each time it is listed, in the
      order of the list. */
  lemma {:induction false} IncludedInOrder(reserves: seq<Reserve>, tokens: map<string, Address>,
                                           wanted: seq<bool>)
    returns (places: seq<nat>)
    requires |wanted| == |reserves|
    requires forall k :: 0 <= k < |reserves| ==>
               (wanted[k] <==> reserves[k].symbol in tokens && tokens[reserves[k].symbol] != "")
    ensures IsPicked(Included(reserves, tokens), reserves, wanted, places)
  {
    places := [];
    if reserves != [] {
      var n := |reserves| - 1;
      places := IncludedInOrder(reserves[..n], tokens, wanted[..n]);
      PickedGrows(Included(reserves[..n], tokens), reserves, wanted, places);
      hide IsPicked;
      if wanted[n] {
        places := places + [n];
      }
    }
  }

  /** The flagged addresses are those of the reserves that allow borrowing, in the order of the list. */
  lemma {:induction false} BorrowableInOrder(reserves: seq<Reserve>, tokens: map<string, Address>,
                                             addresses: seq<Address>, wanted: seq<bool>)
    returns (places: seq<nat>)
    requires AllHaveAddress(reserves, tokens)
    requires |wanted| == |addresses| == |reserves|
    requires forall k :: 0 <= k < |reserves| ==>
               wanted[k] == reserves[k].params.borrowingEnabled && addresses[k] == tokens[reserves[k].symbol]
    ensures IsPicked(Borrowable(reserves, tokens), addresses, wanted, places)
  {
    places := [];
    if reserves != [] {
      var n := |reserves| - 1;
      places := BorrowableInOrder(reserves[..n], tokens, addresses[..n], wanted[..n]);
      PickedGrows(Borrowable(reserves[..n], tokens), addresses, wanted, places);
      hide IsPicked;
      if wanted[n] {
        places := places + [n];
      }
    }
  }

  /** The configured parameters are the address and factor of each reserve, with a utilisation of three quarters of
      a ray. */
  lemma ConfigsAre(reserves: seq<Reserve>, tokens: map<string, Address>, k: nat)
    requires AllHaveAddress(reserves, tokens) && k < |reserves|
    ensures |Configs(reserves, tokens)| == |reserves|
    ensures var config := Configs(reserves, tokens)[k];
            && config.asset == tokens[reserves[k].symbol] && config.reserveFactor == reserves[k].params.reserveFactor
            && config.maxUtilizationRate == 750_000_000_000_000_000_000_000_000
  {
  }
}
