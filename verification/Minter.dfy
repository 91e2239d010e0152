/** dev:mint-top-tokens: minting a list of token ids for a target with signers that may each mint ten. */
module Minter {
  import opened Common

  const MINT_LIMIT: nat := 10
  const MAX_TOKEN_ID: nat := 10_000

  function Count(counts: map<Address, nat>, a: Address): nat {
    if a in counts then counts[a] else 0
  }

  // How many tokens the signers can still mint between them; a repeated signer counts once.
  function Capacity(signers: seq<Address>, counts: map<Address, nat>): nat {
    if signers == [] then 0 else
      var n := |signers| - 1;
      var used := Count(counts, signers[n]);
      Capacity(signers[..n], counts) + if signers[n] in signers[..n] || used >= MINT_LIMIT then 0 else MINT_LIMIT - used
  }

  lemma {:induction false} MintUsesCapacity(signers: seq<Address>, counts: map<Address, nat>, a: Address)
    requires Count(counts, a) < MINT_LIMIT
    ensures Capacity(signers, counts[a := Count(counts, a) + 1]) ==
            Capacity(signers, counts) - if a in signers then 1 else 0
  {
    if signers != [] {
      var n := |signers| - 1;
      assert a in signers <==> a in signers[..n] || a == signers[n];
      MintUsesCapacity(signers[..n], counts, a);
    }
  }

  lemma {:induction false} ExhaustedMeansNoCapacity(signers: seq<Address>, counts: map<Address, nat>)
    requires forall k :: 0 <= k < |signers| ==> Count(counts, signers[k]) >= MINT_LIMIT
    ensures Capacity(signers, counts) == 0
  {
    if signers != [] {
      ExhaustedMeansNoCapacity(signers[..|signers| - 1], counts);
    }
  }

  lemma SubsetSize<T>(xs: set<T>, ys: set<T>)
    requires xs <= ys
    ensures |xs| <= |ys|
  {
    assert ys == xs + (ys - xs);
  }

  // The tokens of ids that nobody had minted yet.
  ghost function Wanted(ids: seq<nat>, owner: map<nat, Address>): set<nat> {
    set id | id in ids && id !in owner
  }

  // The ERC721 token: reverted calls change nothing and report false.
  class MintableERC721 {
    var owner: map<nat, Address>
    var mintCounts: map<Address, nat>
    const faucet: Option<Address>

    constructor (faucet: Option<Address>)
      ensures owner == map[] && mintCounts == map[] && this.faucet == faucet
    {
      owner, mintCounts := map[], map[];
      this.faucet := faucet;
    }

    function Entries(): Ledger
      reads this
    {
      Ledger(owner, mintCounts)
    }

    predicate CanMint(sender: Address, tokenId: nat)
      reads this
    {
      && (if faucet.None? then Count(mintCounts, sender) + 1 <= MINT_LIMIT else faucet.value == sender)
      && tokenId < MAX_TOKEN_ID
      && tokenId !in owner
    }

    method Mint(sender: Address, tokenId: nat) returns (ok: bool)
      modifies this
      ensures ok == old(&& (if faucet.None? then Count(mintCounts, sender) < 10 else faucet.value == sender)
                        && tokenId < 10_000 && tokenId !in owner)
      ensures owner == if ok then old(owner)[tokenId := sender] else old(owner)
      ensures mintCounts == if ok then old(mintCounts)[sender := Count(old(mintCounts), sender) + 1]
              else old(mintCounts)
    {
      if !CanMint(sender, tokenId) {
        return false;
      }
      mintCounts := mintCounts[sender := Count(mintCounts, sender) + 1];
      owner := owner[tokenId := sender];
      return true;
    }

    method TransferFrom(sender: Address, to: Address, tokenId: nat) returns (ok: bool)
      modifies this`owner
      ensures ok == (tokenId in old(owner) && old(owner)[tokenId] == sender && to != ZERO_ADDRESS)
      ensures owner == if ok then old(owner)[tokenId := to] else old(owner)
    {
      if tokenId !in owner || owner[tokenId] != sender || to == ZERO_ADDRESS {
        return false;
      }
      owner := owner[tokenId := to];
      return true;
    }
  }

  datatype Status = Finished | SignersExhausted | Aborted

  // What the ids in `done` have changed on the chain.
  ghost predicate Progress(signers: seq<Address>, target: Address, done: seq<nat>,
                           owner0: map<nat, Address>, counts0: map<Address, nat>,
                           owner: map<nat, Address>, counts: map<Address, nat>)
  {
    && CountsBounded(counts0, counts)
    && owner.Keys == owner0.Keys + Wanted(done, owner0)
    && (forall id :: id in Wanted(done, owner0) ==> owner[id] == target)
    && OthersKept(signers, target, owner0, owner)
    && |Wanted(done, owner0)| + Capacity(signers, counts) == Capacity(signers, counts0)
  }

  // Nobody's count went down, and nobody's went past the limit by minting here.
  ghost predicate CountsBounded(counts0: map<Address, nat>, counts: map<Address, nat>) {
    forall a :: Count(counts0, a) <= Count(counts, a) &&
                (Count(counts, a) <= MINT_LIMIT || Count(counts, a) == Count(counts0, a))
  }

  // A token that existed before stays where it was or moves from a signer to the target.
  ghost predicate OthersKept(signers: seq<Address>, target: Address, owner0: map<nat, Address>,
                             owner: map<nat, Address>) {
    forall id :: id in owner0 ==>
      id in owner && (owner[id] == owner0[id] || (owner0[id] in signers && owner[id] == target))
  }

  // The first signer that has minted fewer than ten.
  function FirstBelow(signers: seq<Address>, counts: map<Address, nat>): (i: nat)
    ensures i <= |signers|
    ensures forall k :: 0 <= k < i ==> Count(counts, signers[k]) >= 10
    ensures i < |signers| ==> Count(counts, signers[i]) < 10
  {
    if signers == [] then 0
    else if Count(counts, signers[0]) < 10 then 0
    else 1 + FirstBelow(signers[1..], counts)
  }

  datatype Ledger = Ledger(owner: map<nat, Address>, counts: map<Address, nat>)

  // What a signer does about a token: it hands over its own, leaves everybody else's, and mints what is missing.
  function Served(minter: Address, target: Address, id: nat, l: Ledger): Ledger {
    if id !in l.owner then
      Ledger(l.owner[id := target], l.counts[minter := Count(l.counts, minter) + 1])
    else
      Ledger(if l.owner[id] == minter then l.owner[id := target] else l.owner, l.counts)
  }

  // The ledger after the tokens, without a cache: the first signer below the limit serves each.
  function Handled(signers: seq<Address>, target: Address, ids: seq<nat>, l0: Ledger): Ledger {
    if ids == [] then
      l0
    else
      var n := |ids| - 1;
      var l := Handled(signers, target, ids[..n], l0);
      var i := FirstBelow(signers, l.counts);
      if i == |signers| then l else Served(signers[i], target, ids[n], l)
  }

  // Once no signer is left nothing changes any more.
  lemma {:induction false} ExhaustedStays(signers: seq<Address>, target: Address, ids: seq<nat>, n: nat,
                                          l0: Ledger)
    requires n <= |ids| && FirstBelow(signers, Handled(signers, target, ids[..n], l0).counts) == |signers|
    ensures Handled(signers, target, ids, l0) == Handled(signers, target, ids[..n], l0)
  {
    hide FirstBelow, Served;
    if n == |ids| {
      assert ids[..n] == ids;
    } else {
      var m := |ids| - 1;
      assert ids[..m][..n] == ids[..n];
      ExhaustedStays(signers, target, ids[..m], n, l0);
    }
  }

  lemma {:induction false} MintsAStart(signers: seq<Address>, target: Address, ids: seq<nat>, l0: Ledger)
    returns (m: nat)
    ensures var l := Handled(signers, target, ids, l0);
            && m <= |ids| && l.owner.Keys == l0.owner.Keys + Wanted(ids[..m], l0.owner)
            && (m < |ids| ==> FirstBelow(signers, l.counts) == |signers|)
  {
    hide Served, Wanted, FirstBelow;
    m := 0;
    NothingWanted(l0.owner);
    if ids != [] {
      var n := |ids| - 1;
      var before := ids[..n];
      m := MintsAStart(signers, target, before, l0);
      assert before[..m] == ids[..m];
      var l := Handled(signers, target, before, l0);
      var i := FirstBelow(signers, l.counts);
      if i < |signers| {
        m := |ids|;
        assert ids[..m] == ids && before == before[..n];
        WantedGrows(ids, n, l0.owner);
        ServedKeys(signers[i], target, ids[n], l);
      }
    }
  }

  /** What is minted are the missing tokens among the first m of the list, all of them unless every signer has
      minted ten by then. */
  lemma MintsTheFirstMissing(signers: seq<Address>, target: Address, ids: seq<nat>, l0: Ledger) returns (m: nat)
    ensures var l := Handled(signers, target, ids, l0);
            && m <= |ids| && l.owner.Keys == l0.owner.Keys + Wanted(ids[..m], l0.owner)
            && (m < |ids| ==> forall a :: a in signers ==> Count(l.counts, a) >= 10)
  {
    hide Handled, Wanted;
    m := MintsAStart(signers, target, ids, l0);
  }

  lemma NothingWanted(owner: map<nat, Address>)
    ensures Wanted([], owner) == {}
  {
  }

  lemma ServedKeys(minter: Address, target: Address, id: nat, l: Ledger)
    ensures Served(minter, target, id, l).owner.Keys == l.owner.Keys + {id}
  {
  }

  // The limit the loop remembers, once it is not negative, is the current minter's count on the chain.
  ghost predicate Cached(signers: seq<Address>, counts: map<Address, nat>,
                         minterIndex: nat, minterAddress: Address, minterLimit: int)
  {
    && -1 <= minterLimit <= MINT_LIMIT
    && (minterLimit >= 0 ==> minterIndex < |signers| && minterAddress == signers[minterIndex] &&
                             minterLimit == Count(counts, minterAddress))
  }

  // As many of the missing tokens as the signers can mint have been minted, all of them the target's.
  ghost predicate MintedAllItCould(signers: seq<Address>, target: Address, ids: seq<nat>,
                                   owner0: map<nat, Address>, counts0: map<Address, nat>, owner: map<nat, Address>)
  {
    var minted := owner.Keys - owner0.Keys;
    var wanted, capacity := Wanted(ids, owner0), Capacity(signers, counts0);
    && minted <= wanted
    && |minted| == (if |wanted| < capacity then |wanted| else capacity)
    && (forall id :: id in minted ==> owner[id] == target)
    && OthersKept(signers, target, owner0, owner)
  }

  // The only ways the task can end in an error: minting is reserved for a faucet, the target is the zero
  // address, or a missing id is past the last one the token allows.
  ghost predicate MayFail(faucet: Option<Address>, target: Address, ids: seq<nat>, owner0: map<nat, Address>) {
    faucet.Some? || target == ZERO_ADDRESS || exists id :: id in Wanted(ids, owner0) && id >= MAX_TOKEN_ID
  }

  datatype Outcome = Minted | Skipped | Failed

  /** The body of the loop for one token: hand it over if the minter owns it, leave it to any other
      owner, and otherwise mint it and hand it over. A reverted call that is not caught ends the task. */
  method MintOrHandOver(token: MintableERC721, minter: Address, target: Address, tokenId: nat) returns (r: Outcome)
    requires Count(token.mintCounts, minter) < MINT_LIMIT
    modifies token
    ensures r == Minted ==> tokenId !in old(token.owner) &&
                            token.owner == old(token.owner)[tokenId := minter][tokenId := target] &&
                            token.mintCounts ==
                              old(token.mintCounts)[minter := Count(old(token.mintCounts), minter) + 1]
    ensures r == Skipped ==> tokenId in old(token.owner) && token.mintCounts == old(token.mintCounts) &&
                             token.owner == if old(token.owner)[tokenId] == minter
                                            then old(token.owner)[tokenId := target]
                                            else old(token.owner)
    ensures r == Failed ==> CountsBounded(old(token.mintCounts), token.mintCounts) &&
                            (|| target == ZERO_ADDRESS || token.faucet.Some?
                             || (tokenId !in old(token.owner) && tokenId >= MAX_TOKEN_ID))
  {
    if tokenId in token.owner {
      if token.owner[tokenId] != minter {
        return Skipped;
      }
      var moved := token.TransferFrom(minter, target, tokenId);
      if moved {
        return Skipped;
      }
    }
    var ok := token.Mint(minter, tokenId);
    if !ok {
      return Failed;
    }
    ok := token.TransferFrom(minter, target, tokenId);
    return if ok then Minted else Failed;
  }

  /** The inner loop: the first signer from `start` on that can still mint. */
  method NextMinter(token: MintableERC721, signers: seq<Address>, start: nat)
    returns (index: nat, minter: Address, limit: int)
    requires start <= |signers|
    ensures start <= index <= |signers|
    ensures forall k :: start <= k < index ==> Count(token.mintCounts, signers[k]) >= MINT_LIMIT
    ensures index < |signers| ==> minter == signers[index] && limit == Count(token.mintCounts, minter) < MINT_LIMIT
  {
    index, minter, limit := start, "", -1;
    while index < |signers|
      invariant start <= index <= |signers|
      invariant forall k :: start <= k < index ==> Count(token.mintCounts, signers[k]) >= MINT_LIMIT
    {
      minter := signers[index];
      var tmpLimit := Count(token.mintCounts, minter);
      if tmpLimit < MINT_LIMIT {
        limit := tmpLimit;
        break;
      }
      index := index + 1;
    }
  }

  // One token more: its minter serves it, or an uncaught revert ends the task.
  method MintNext(token: MintableERC721, minter: Address, target: Address, tokenId: nat) returns (r: Outcome)
    requires Count(token.mintCounts, minter) < MINT_LIMIT
    modifies token
    ensures r != Failed ==> token.Entries() == Served(minter, target, tokenId, old(token.Entries()))
    ensures r == Minted <==> r != Failed && tokenId !in old(token.owner)
    ensures r == Failed ==> CountsBounded(old(token.mintCounts), token.mintCounts) &&
                            (|| target == ZERO_ADDRESS || token.faucet.Some?
                             || (tokenId !in old(token.owner) && tokenId >= MAX_TOKEN_ID))
  {
    hide CountsBounded;
    r := MintOrHandOver(token, minter, target, tokenId);
    if r == Minted {
      Overwritten(old(token.owner), tokenId, minter, target);
    }
  }

  lemma Overwritten(m: map<nat, Address>, k: nat, x: Address, y: Address)
    ensures m[k := x][k := y] == m[k := y]
  {
  }

  // A token served keeps the loop's progress.
  lemma ServedProgress(signers: seq<Address>, target: Address, ids: seq<nat>, i: nat, minter: Address,
                       l0: Ledger, l: Ledger)
    requires i < |ids| && minter in signers && Count(l.counts, minter) < MINT_LIMIT
    requires Progress(signers, target, ids[..i], l0.owner, l0.counts, l.owner, l.counts)
    ensures var l' := Served(minter, target, ids[i], l);
            && Progress(signers, target, ids[..i + 1], l0.owner, l0.counts, l'.owner, l'.counts)
            && forall a :: Count(l'.counts, a) ==
                 Count(l.counts, a) + if ids[i] !in l.owner && a == minter then 1 else 0
  {
    hide Progress;
    var l' := Served(minter, target, ids[i], l);
    if ids[i] in l.owner {
      StepSkipped(signers, target, ids, i, l0.owner, l0.counts, l.owner, l'.owner, l.counts);
    } else {
      Overwritten(l.owner, ids[i], minter, target);
      StepMinted(signers, target, ids, i, l0.owner, l0.counts, l.owner, l.counts, minter, l'.owner, l'.counts);
    }
  }

  lemma HandledStep(signers: seq<Address>, target: Address, ids: seq<nat>, i: nat, first: nat, l0: Ledger)
    requires i < |ids| && first < |signers|
    requires var counts := Handled(signers, target, ids[..i], l0).counts;
             && Count(counts, signers[first]) < MINT_LIMIT
             && forall k :: 0 <= k < first ==> Count(counts, signers[k]) >= MINT_LIMIT
    ensures Handled(signers, target, ids[..i + 1], l0) ==
            Served(signers[first], target, ids[i], Handled(signers, target, ids[..i], l0))
  {
    assert ids[..i + 1][..i] == ids[..i];
  }

  method MintTopTokens(token: MintableERC721, signers: seq<Address>, target: Address, ids: seq<nat>)
    returns (status: Status)
    modifies token
    ensures CountsBounded(old(token.mintCounts), token.mintCounts)
    ensures status != Aborted ==>
              MintedAllItCould(signers, target, ids, old(token.owner), old(token.mintCounts), token.owner)
    ensures status != Aborted ==>
              token.Entries() == Handled(signers, target, ids, old(token.Entries()))
    ensures status == Finished ==> Wanted(ids, old(token.owner)) <= token.owner.Keys
    ensures status == SignersExhausted ==> forall a :: a in signers ==> Count(token.mintCounts, a) >= 10
    ensures status == Aborted ==> MayFail(token.faucet, target, ids, old(token.owner))
  {
    hide OthersKept, Capacity, Wanted, MintedAllItCould, Handled, Served, Progress, CountsBounded;
    ghost var l0 := token.Entries();
    ghost var owner0, counts0 := l0.owner, l0.counts;
    NothingDone(signers, target, l0);
    var minterIndex := 0;
    var minterAddress: Address := "";
    var minterLimit := -1;
    for i := 0 to |ids|
      invariant minterIndex <= |signers|
      invariant forall k :: 0 <= k < minterIndex ==> Count(token.mintCounts, signers[k]) >= MINT_LIMIT
      invariant Cached(signers, token.mintCounts, minterIndex, minterAddress, minterLimit)
      invariant Progress(signers, target, ids[..i], owner0, counts0, token.owner, token.mintCounts)
      invariant token.Entries() == Handled(signers, target, ids[..i], l0)
    {
      if minterLimit < 0 || minterLimit >= MINT_LIMIT {
        minterIndex, minterAddress, minterLimit := NextMinter(token, signers, minterIndex);
        if minterIndex == |signers| {
          Stopped(signers, target, ids, i, owner0, counts0, token.owner, token.mintCounts);
          BoundedByProgress(signers, target, ids[..i], l0, token.Entries());
          AllAtLimit(signers, token.mintCounts);
          ExhaustedStays(signers, target, ids, i, l0);
          return SignersExhausted;
        }
      }
      HandledStep(signers, target, ids, i, minterIndex, l0);
      ServedProgress(signers, target, ids, i, minterAddress, l0, token.Entries());
      ghost var before := token.Entries();
      var handled := MintNext(token, minterAddress, target, ids[i]);
      if handled == Failed {
        MayFailHere(signers, target, ids, i, token.faucet, l0, before, token.mintCounts);
        return Aborted;
      } else if handled == Minted {
        minterLimit := minterLimit + 1;
      }
    }
    Stopped(signers, target, ids, |ids|, owner0, counts0, token.owner, token.mintCounts);
    BoundedByProgress(signers, target, ids[..|ids|], l0, token.Entries());
    assert ids[..|ids|] == ids;
    status := Finished;
  }

  lemma NothingDone(signers: seq<Address>, target: Address, l: Ledger)
    ensures Progress(signers, target, [], l.owner, l.counts, l.owner, l.counts) && Handled(signers, target, [], l) == l
  {
  }

  lemma AllAtLimit(signers: seq<Address>, counts: map<Address, nat>)
    requires forall k :: 0 <= k < |signers| ==> Count(counts, signers[k]) >= MINT_LIMIT
    ensures FirstBelow(signers, counts) == |signers|
  {
  }

  lemma BoundedByProgress(signers: seq<Address>, target: Address, done: seq<nat>, l0: Ledger, l: Ledger)
    requires Progress(signers, target, done, l0.owner, l0.counts, l.owner, l.counts)
    ensures CountsBounded(l0.counts, l.counts)
  {
  }

  // An uncaught revert has one of its three causes, and has not counted past the limit.
  lemma MayFailHere(signers: seq<Address>, target: Address, ids: seq<nat>, i: nat, faucet: Option<Address>,
                    l0: Ledger, l: Ledger, counts': map<Address, nat>)
    requires i < |ids| && Progress(signers, target, ids[..i], l0.owner, l0.counts, l.owner, l.counts)
    requires CountsBounded(l.counts, counts')
    requires target == ZERO_ADDRESS || faucet.Some? || (ids[i] !in l.owner && ids[i] >= MAX_TOKEN_ID)
    ensures CountsBounded(l0.counts, counts') && MayFail(faucet, target, ids, l0.owner)
  {
    WantedGrows(ids, i, l0.owner);
    BoundTransitive(l0.counts, l.counts, counts');
  }

  lemma WantedGrows(ids: seq<nat>, i: nat, owner: map<nat, Address>)
    requires i < |ids|
    ensures var before, after := Wanted(ids[..i], owner), Wanted(ids[..i + 1], owner);
            after == if ids[i] in owner then before else before + {ids[i]}
    ensures ids[i] !in owner ==> ids[i] in Wanted(ids, owner)
  {
    assert ids[..i + 1] == ids[..i] + [ids[i]];
  }

  // A token that exists already is left alone or handed over by the minter.
  lemma StepSkipped(signers: seq<Address>, target: Address, ids: seq<nat>, i: nat,
                    owner0: map<nat, Address>, counts0: map<Address, nat>,
                    owner: map<nat, Address>, owner': map<nat, Address>, counts: map<Address, nat>)
    requires i < |ids| && ids[i] in owner
    requires owner' == owner || (owner[ids[i]] in signers && owner' == owner[ids[i] := target])
    requires Progress(signers, target, ids[..i], owner0, counts0, owner, counts)
    ensures Progress(signers, target, ids[..i + 1], owner0, counts0, owner', counts)
  {
    WantedGrows(ids, i, owner0);
    assert Wanted(ids[..i + 1], owner0) == Wanted(ids[..i], owner0);
    assert owner'.Keys == owner.Keys;
    assert OthersKept(signers, target, owner0, owner') by { HandOver(signers, target, owner0, owner, owner', ids[i]); }
    assert forall id :: id in Wanted(ids[..i], owner0) ==> owner'[id] == target;
  }

  lemma HandOver(signers: seq<Address>, target: Address, owner0: map<nat, Address>,
                 owner: map<nat, Address>, owner': map<nat, Address>, tokenId: nat)
    requires tokenId in owner
    requires owner' == owner || (owner[tokenId] in signers && owner' == owner[tokenId := target])
    requires OthersKept(signers, target, owner0, owner)
    ensures OthersKept(signers, target, owner0, owner')
  {
  }

  lemma StepMinted(signers: seq<Address>, target: Address, ids: seq<nat>, i: nat,
                   owner0: map<nat, Address>, counts0: map<Address, nat>,
                   owner: map<nat, Address>, counts: map<Address, nat>, minter: Address,
                   owner': map<nat, Address>, counts': map<Address, nat>)
    requires i < |ids| && ids[i] !in owner
    requires owner' == owner[ids[i] := minter][ids[i] := target]
    requires counts' == counts[minter := Count(counts, minter) + 1]
    requires minter in signers && Count(counts, minter) < MINT_LIMIT
    requires Progress(signers, target, ids[..i], owner0, counts0, owner, counts)
    ensures Progress(signers, target, ids[..i + 1], owner0, counts0, owner', counts')
    ensures forall a :: Count(counts', a) == Count(counts, a) + if a == minter then 1 else 0
  {
    WantedGrows(ids, i, owner0);
    MintUsesCapacity(signers, counts, minter);
    assert |Wanted(ids[..i + 1], owner0)| == |Wanted(ids[..i], owner0)| + 1;
    MintKeepsBound(counts0, counts, minter);
    NewOwner(signers, target, owner0, owner, Wanted(ids[..i], owner0), ids[i], minter);
  }

  lemma BoundTransitive(counts0: map<Address, nat>, counts1: map<Address, nat>, counts2: map<Address, nat>)
    requires CountsBounded(counts0, counts1) && CountsBounded(counts1, counts2)
    ensures CountsBounded(counts0, counts2)
  {
  }

  lemma MintKeepsBound(counts0: map<Address, nat>, counts: map<Address, nat>, minter: Address)
    requires CountsBounded(counts0, counts) && Count(counts, minter) < MINT_LIMIT
    ensures CountsBounded(counts0, counts[minter := Count(counts, minter) + 1])
  {
  }

  lemma NewOwner(signers: seq<Address>, target: Address, owner0: map<nat, Address>, owner: map<nat, Address>,
                 minted: set<nat>, tokenId: nat, minter: Address)
    requires tokenId !in owner && owner.Keys == owner0.Keys + minted
    requires forall id :: id in minted ==> owner[id] == target
    requires OthersKept(signers, target, owner0, owner)
    ensures var owner' := owner[tokenId := minter][tokenId := target];
            && owner'.Keys == owner0.Keys + (minted + {tokenId})
            && (forall id :: id in minted + {tokenId} ==> owner'[id] == target)
            && OthersKept(signers, target, owner0, owner')
  {
  }

  lemma Stopped(signers: seq<Address>, target: Address, ids: seq<nat>, i: nat,
                owner0: map<nat, Address>, counts0: map<Address, nat>,
                owner: map<nat, Address>, counts: map<Address, nat>)
    requires i <= |ids|
    requires i == |ids| || forall k :: 0 <= k < |signers| ==> Count(counts, signers[k]) >= MINT_LIMIT
    requires Progress(signers, target, ids[..i], owner0, counts0, owner, counts)
    ensures MintedAllItCould(signers, target, ids, owner0, counts0, owner)
    ensures i == |ids| ==> Wanted(ids, owner0) <= owner.Keys
  {
    assert owner.Keys - owner0.Keys == Wanted(ids[..i], owner0);
    if i == |ids| {
      assert ids[..i] == ids;
    } else {
      ExhaustedMeansNoCapacity(signers, counts);
      SubsetSize(Wanted(ids[..i], owner0), Wanted(ids, owner0));
    }
  }
}
