/** The interchain builder: chains, relayers and links are registered or rejected, and the
    genesis funding of every chain is worked out from them. Go's maps are ranged over in any
    order, so every loop over one here takes its elements in any order. */
module Interchain {
  import opened Collections

  /** A chain by reference, with what its configuration says. */
  datatype Chain = Chain(ref: nat, id: string, name: string, denom: string)

  datatype Relayer = Relayer(ref: nat)

  datatype LinkKey = LinkKey(relayer: Relayer, path: string)

  datatype Ends = Ends(one: Chain, two: Chain)

  datatype Amount = Amount(address: string, denom: string, units: int)

  datatype RelayerChain = RelayerChain(r: Relayer, c: Chain)

  const FAUCET_UNITS: int := 100_000_000_000_000
  const RELAYER_UNITS: int := 1_000_000_000_000

  /** What has been registered. */
  datatype Registry = Registry(
    chains: map<Chain, string>,
    relayers: map<Relayer, string>,
    links: map<LinkKey, Ends>,
    additional: map<Chain, seq<Amount>>)

  ghost predicate Valid(g: Registry)
  {
    && (forall c :: c in g.chains ==> g.chains[c] == c.id)
    && (forall c, d :: c in g.chains && d in g.chains && c != d ==> c.id != d.id && c.name != d.name)
    && (forall r, s :: r in g.relayers && s in g.relayers && r != s ==> g.relayers[r] != g.relayers[s])
    && (forall k :: k in g.links ==>
          k.relayer in g.relayers && g.links[k].one in g.chains && g.links[k].two in g.chains
          && g.links[k].one != g.links[k].two)
    && (forall c :: c in g.additional ==> c in g.chains)
  }

  /** Some link of the relayer touches the chain. */
  ghost predicate Touches(g: Registry, r: Relayer, c: Chain)
  {
    exists k :: k in g.links && k.relayer == r && (g.links[k].one == c || g.links[k].two == c)
  }

  datatype Status = Done | Failed | Panic

  ghost predicate Paired(g: Registry, rc: RelayerChain)
  {
    Touches(g, rc.r, rc.c)
  }

  /** The name under which the wallet is kept in the keyring. */
  function AccountName(g: Registry, rc: RelayerChain): string
  {
    (if rc.r in g.relayers then g.relayers[rc.r] else "") + "-" + (if rc.c in g.chains then g.chains[rc.c] else "")
  }

  /** What BuildRelayerWallet answers at its n-th call for a chain and an account name. */
  type Builds = (nat, Chain, string) -> Option<string>

  /** Call n, one after the other, was for asked[n]: no pair was asked for twice, and the wallets
      are the answers. */
  ghost predicate Built(g: Registry, build: Builds, wallets: map<RelayerChain, string>, asked: seq<RelayerChain>)
  {
    && Distinct(asked) && (forall rc :: rc in wallets <==> rc in asked)
    && (forall n :: 0 <= n < |asked| ==>
          Paired(g, asked[n]) && Answers(g, build, n, asked[n], Some(wallets[asked[n]])))
  }

  ghost predicate Answers(g: Registry, build: Builds, n: nat, rc: RelayerChain, answer: Option<string>)
  {
    build(n, rc.c, AccountName(g, rc)) == answer
  }

  /** The last call was refused. */
  ghost predicate RefusedLast(g: Registry, build: Builds, wallets: map<RelayerChain, string>,
                              asked: seq<RelayerChain>)
  {
    asked != [] &&
    var n := |asked| - 1;
    Built(g, build, wallets, asked[..n]) && Paired(g, asked[n]) && asked[n] !in asked[..n]
    && Answers(g, build, n, asked[n], None)
  }

  lemma BuiltMeans(g: Registry, build: Builds, wallets: map<RelayerChain, string>, asked: seq<RelayerChain>)
    requires Valid(g) && Built(g, build, wallets, asked)
    ensures forall n :: 0 <= n < |asked| ==>
              var r, c := asked[n].r, asked[n].c;
              && asked[n] in wallets && r in g.relayers && c in g.chains
              && build(n, c, g.relayers[r] + "-" + g.chains[c]) == Some(wallets[asked[n]])
  {
    forall n | 0 <= n < |asked|
      ensures asked[n] in wallets && asked[n].r in g.relayers && asked[n].c in g.chains
    {
      PairIsRegistered(g, asked[n]);
    }
  }

  lemma RefusedMeans(g: Registry, build: Builds, wallets: map<RelayerChain, string>, asked: seq<RelayerChain>)
    requires Valid(g) && RefusedLast(g, build, wallets, asked)
    ensures asked != []
    ensures var rc := asked[|asked| - 1];
            && rc.r in g.relayers && rc.c in g.chains
            && build(|asked| - 1, rc.c, g.relayers[rc.r] + "-" + g.chains[rc.c]) == None
  {
    hide Built;
    PairIsRegistered(g, asked[|asked| - 1]);
  }

  lemma PairIsRegistered(g: Registry, rc: RelayerChain)
    requires Valid(g) && Paired(g, rc)
    ensures rc.r in g.relayers && rc.c in g.chains
  {
  }

  lemma NothingBuilt(g: Registry, build: Builds)
    ensures Built(g, build, map[], [])
  {
  }

  lemma NotYetAsked(g: Registry, build: Builds, wallets: map<RelayerChain, string>, asked: seq<RelayerChain>,
                    rc: RelayerChain)
    requires Built(g, build, wallets, asked)
    ensures rc in wallets <==> rc in asked
  {
  }

  lemma RefusedAfter(g: Registry, build: Builds, wallets: map<RelayerChain, string>, asked: seq<RelayerChain>,
                     rc: RelayerChain)
    requires Built(g, build, wallets, asked) && rc !in asked && Paired(g, rc)
    requires Answers(g, build, |asked|, rc, None)
    ensures RefusedLast(g, build, wallets, asked + [rc])
  {
    hide Built, Paired;
    assert (asked + [rc])[..|asked|] == asked;
  }

  lemma OneMoreBuilt(g: Registry, build: Builds, wallets: map<RelayerChain, string>, asked: seq<RelayerChain>,
                     rc: RelayerChain, wallet: string)
    requires Built(g, build, wallets, asked) && rc !in asked && Paired(g, rc)
    requires Answers(g, build, |asked|, rc, Some(wallet))
    ensures Built(g, build, wallets[rc := wallet], asked + [rc])
  {
    hide Paired, Answers;
    forall n | 0 <= n < |asked| ensures asked[n] in asked && asked[n] != rc {
    }
  }

  function AdditionalOf(g: Registry, c: Chain): seq<Amount>
  {
    if c in g.additional then g.additional[c] else []
  }

  ghost function Base(g: Registry, faucet: Chain -> string, c: Chain): seq<Amount>
  {
    [Amount(faucet(c), c.denom, FAUCET_UNITS)] + AdditionalOf(g, c)
  }

  /** The entries of a chain's relayers, in the given order. */
  function Entries(wallets: map<RelayerChain, string>, c: Chain, order: seq<Relayer>): (s: seq<Amount>)
    ensures |s| == |order|
  {
    seq(|order|, i requires 0 <= i < |order| =>
      var rc := RelayerChain(order[i], c);
      Amount(if rc in wallets then wallets[rc] else "", c.denom, RELAYER_UNITS))
  }

  /** The relayers paired with the chain, each once. */
  ghost predicate InOrder(pairs: set<RelayerChain>, c: Chain, order: seq<Relayer>)
  {
    Distinct(order) && forall r :: r in order <==> RelayerChain(r, c) in pairs
  }

  lemma OneMoreInOrder(pairs: set<RelayerChain>, rc: RelayerChain, d: Chain, order: seq<Relayer>)
    requires InOrder(pairs, d, order) && rc !in pairs
    ensures InOrder(pairs + {rc}, d, if d == rc.c then order + [rc.r] else order)
  {
    assert forall i :: 0 <= i < |order| ==> order[i] in order;
  }

  /** Every chain has its base amounts and the entries of the pairs seen so far. */
  ghost predicate Paid(g: Registry, faucet: Chain -> string, wallets: map<RelayerChain, string>,
                       pairs: set<RelayerChain>, amounts: map<Chain, seq<Amount>>, orders: map<Chain, seq<Relayer>>)
  {
    && amounts.Keys == g.chains.Keys == orders.Keys
    && forall c :: c in g.chains ==>
         InOrder(pairs, c, orders[c]) && amounts[c] == Base(g, faucet, c) + Entries(wallets, c, orders[c])
  }

  lemma NonePaid(g: Registry, faucet: Chain -> string, wallets: map<RelayerChain, string>,
                 amounts: map<Chain, seq<Amount>>, orders: map<Chain, seq<Relayer>>)
    requires amounts.Keys == g.chains.Keys == orders.Keys
    requires forall c :: c in g.chains ==> amounts[c] == Base(g, faucet, c) && orders[c] == []
    ensures Paid(g, faucet, wallets, wallets.Keys - wallets.Keys, amounts, orders)
  {
    assert forall c :: c in g.chains ==> amounts[c] == Base(g, faucet, c) + [];
  }

  lemma OneMorePaid(g: Registry, faucet: Chain -> string, wallets: map<RelayerChain, string>,
                    pairs: set<RelayerChain>, amounts: map<Chain, seq<Amount>>,
                    orders: map<Chain, seq<Relayer>>, rc: RelayerChain)
    requires Paid(g, faucet, wallets, pairs, amounts, orders) && rc in wallets && rc !in pairs && rc.c in g.chains
    ensures Paid(g, faucet, wallets, pairs + {rc},
                 amounts[rc.c := amounts[rc.c] + [Amount(wallets[rc], rc.c.denom, RELAYER_UNITS)]],
                 orders[rc.c := orders[rc.c] + [rc.r]])
  {
    hide InOrder, Base, Entries;
    OneMoreEntry(wallets, rc, orders[rc.c]);
    forall c | c in g.chains
      ensures InOrder(pairs + {rc}, c, orders[rc.c := orders[rc.c] + [rc.r]][c])
    {
      OneMoreInOrder(pairs, rc, c, orders[c]);
    }
  }

  /** Every chain has the faucet's entry, its additional wallets, and then one entry for each relayer
      with a link that touches it; `orders` tells in which order the relayers were met. */
  ghost predicate Funded(g: Registry, faucet: Chain -> string, wallets: map<RelayerChain, string>,
                         amounts: map<Chain, seq<Amount>>, orders: map<Chain, seq<Relayer>>)
  {
    && amounts.Keys == g.chains.Keys == orders.Keys
    && (forall c :: c in g.chains ==> Distinct(orders[c]) && forall r :: r in orders[c] <==> Touches(g, r, c))
    && (forall c :: c in g.chains ==>
          amounts[c] == [Amount(faucet(c), c.denom, FAUCET_UNITS)] + AdditionalOf(g, c)
                        + Entries(wallets, c, orders[c]))
  }

  lemma AllPaid(g: Registry, faucet: Chain -> string, wallets: map<RelayerChain, string>,
                amounts: map<Chain, seq<Amount>>, orders: map<Chain, seq<Relayer>>)
    requires Paid(g, faucet, wallets, wallets.Keys, amounts, orders) && forall rc :: rc in wallets <==> Paired(g, rc)
    ensures Funded(g, faucet, wallets, amounts, orders)
  {
    forall c, r | c in g.chains
      ensures r in orders[c] <==> Touches(g, r, c)
    {
      assert Paired(g, RelayerChain(r, c)) <==> Touches(g, r, c);
    }
  }

  lemma OneMoreEntry(wallets: map<RelayerChain, string>, rc: RelayerChain, order: seq<Relayer>)
    requires rc in wallets
    ensures Entries(wallets, rc.c, order + [rc.r]) ==
            Entries(wallets, rc.c, order) + [Amount(wallets[rc], rc.c.denom, RELAYER_UNITS)]
  {
  }

  lemma PairInChains(g: Registry, rc: RelayerChain)
    requires Valid(g) && Paired(g, rc)
    ensures rc.c in g.chains
  {
  }

  function Units(s: seq<Amount>): int
  {
    if s == [] then 0 else s[0].units + Units(s[1..])
  }

  lemma {:induction false} UnitsAppend(a: seq<Amount>, b: seq<Amount>)
    ensures Units(a + b) == Units(a) + Units(b)
  {
    if a == [] {
      assert a + b == b;
    } else {
      assert (a + b)[1..] == a[1..] + b;
      UnitsAppend(a[1..], b);
    }
  }

  lemma {:induction false} EntryUnits(wallets: map<RelayerChain, string>, c: Chain, order: seq<Relayer>)
    ensures Units(Entries(wallets, c, order)) == |order| * RELAYER_UNITS
  {
    if order == [] {
    } else {
      EntryUnits(wallets, c, order[1..]);
      assert Entries(wallets, c, order)[1..] == Entries(wallets, c, order[1..]);
    }
  }

  /** Entry by entry: the faucet's, the additional wallets' as they were given, and one for each
      relayer with a link that touches the chain. */
  lemma FundedMeans(g: Registry, faucet: Chain -> string, wallets: map<RelayerChain, string>,
                    amounts: map<Chain, seq<Amount>>, orders: map<Chain, seq<Relayer>>)
    requires Funded(g, faucet, wallets, amounts, orders) && forall rc :: rc in wallets <==> Paired(g, rc)
    ensures amounts.Keys == g.chains.Keys == orders.Keys
    ensures forall c :: c in g.chains ==>
              |amounts[c]| == 1 + (if c in g.additional then |g.additional[c]| else 0) + |orders[c]|
              && amounts[c][0] == Amount(faucet(c), c.denom, 100_000_000_000_000)
    ensures forall c :: c in g.chains && c in g.additional ==>
              amounts[c][1..1 + |g.additional[c]|] == g.additional[c]
    ensures forall c :: c in g.chains ==>
              forall i :: 0 <= i < |orders[c]| ==>
                var rc := RelayerChain(orders[c][i], c);
                rc in wallets
                && amounts[c][|amounts[c]| - |orders[c]| + i] == Amount(wallets[rc], c.denom, 1_000_000_000_000)
    ensures forall c :: c in g.chains ==>
              (forall i, j :: 0 <= i < j < |orders[c]| ==> orders[c][i] != orders[c][j])
              && forall r :: r in orders[c] <==>
                   exists k :: k in g.links && k.relayer == r && (g.links[k].one == c || g.links[k].two == c)
  {
    forall c, i | c in g.chains && 0 <= i < |orders[c]|
      ensures RelayerChain(orders[c][i], c) in wallets
    {
      assert orders[c][i] in orders[c];
      assert Paired(g, RelayerChain(orders[c][i], c));
    }
  }

  /** The relayers with a link that touches the chain. */
  function TouchingRelayers(g: Registry, c: Chain): set<Relayer>
  {
    set k | k in g.links && (g.links[k].one == c || g.links[k].two == c) :: k.relayer
  }

  /** Funds are conserved whatever the order: a chain starts with the faucet's 100T, what its
      additional wallets were given, and 1T for each relayer with a link that touches it. */
  lemma FundingTotal(g: Registry, faucet: Chain -> string, wallets: map<RelayerChain, string>,
                     amounts: map<Chain, seq<Amount>>, orders: map<Chain, seq<Relayer>>, c: Chain)
    requires Funded(g, faucet, wallets, amounts, orders) && c in g.chains
    ensures Units(amounts[c]) ==
            100_000_000_000_000 + (if c in g.additional then Units(g.additional[c]) else 0)
            + |TouchingRelayers(g, c)| * 1_000_000_000_000
  {
    var f, order := [Amount(faucet(c), c.denom, FAUCET_UNITS)], orders[c];
    UnitsAppend(f + AdditionalOf(g, c), Entries(wallets, c, order));
    UnitsAppend(f, AdditionalOf(g, c));
    EntryUnits(wallets, c, order);
    forall r ensures r in order <==> r in TouchingRelayers(g, c) {
      assert r in order <==> Touches(g, r, c);
    }
    CountDistinct(order, TouchingRelayers(g, c));
    assert f[1..] == [];
  }

  // ---------------------------------------------------------------- registration

  class Builder {
    var g: Registry
    var relayerWallets: Option<map<RelayerChain, string>>

    constructor ()
      ensures Valid(g) && g == Registry(map[], map[], map[], map[]) && relayerWallets == None
    {
      g := Registry(map[], map[], map[], map[]);
      relayerWallets := None;
    }

    /** AddChain; false stands for the panic. */
    method AddChain(chain: Option<Chain>, wallets: seq<Amount>) returns (ok: bool)
      requires Valid(g)
      modifies `g
      ensures Valid(g)
      ensures ok <==> chain.Some? && forall c :: c in old(g).chains ==>
                                       c != chain.value && c.id != chain.value.id && c.name != chain.value.name
      ensures !ok ==> g == old(g)
      ensures ok ==> g == old(g).(chains := old(g).chains[chain.value := chain.value.id],
                                  additional := if wallets == [] then old(g).additional
                                                else old(g).additional[chain.value := wallets])
    {
      if chain == None { return false; }
      var c := chain.value;
      var rest := g.chains.Keys;
      while rest != {}
        invariant rest <= g.chains.Keys
        invariant forall d :: d in g.chains.Keys - rest ==> d != c && d.id != c.id && d.name != c.name
        decreases rest
      {
        var d :| d in rest;
        if d == c { return false; }
        if g.chains[d] == c.id { return false; }
        if d.name == c.name { return false; }
        rest := rest - {d};
      }
      g := g.(chains := g.chains[c := c.id]);
      if |wallets| == 0 { return true; }
      g := g.(additional := g.additional[c := wallets]);
      return true;
    }

    /** AddRelayer; false stands for the panic. */
    method AddRelayer(relayer: Option<Relayer>, name: string) returns (ok: bool)
      requires Valid(g)
      modifies `g
      ensures Valid(g)
      ensures ok <==> relayer.Some? && relayer.value !in old(g).relayers && name !in old(g).relayers.Values
      ensures g == if ok then old(g).(relayers := old(g).relayers[relayer.value := name]) else old(g)
    {
      if relayer == None { return false; }
      var rest := g.relayers.Keys;
      while rest != {}
        invariant rest <= g.relayers.Keys
        invariant forall r :: r in g.relayers.Keys - rest ==> r != relayer.value && g.relayers[r] != name
        decreases rest
      {
        var r :| r in rest;
        if r == relayer.value { return false; }
        if g.relayers[r] == name { return false; }
        rest := rest - {r};
      }
      g := g.(relayers := g.relayers[relayer.value := name]);
      return true;
    }

    /** AddLink; false stands for the panic. */
    method AddLink(relayer: Relayer, path: string, one: Chain, two: Chain) returns (ok: bool)
      requires Valid(g)
      modifies `g
      ensures Valid(g)
      ensures ok <==> one in old(g).chains && two in old(g).chains && relayer in old(g).relayers
                      && one != two && LinkKey(relayer, path) !in old(g).links
      ensures g == if ok then old(g).(links := old(g).links[LinkKey(relayer, path) := Ends(one, two)]) else old(g)
    {
      if one !in g.chains { return false; }
      if two !in g.chains { return false; }
      if relayer !in g.relayers { return false; }
      if one == two { return false; }
      if LinkKey(relayer, path) in g.links { return false; }
      g := g.(links := g.links[LinkKey(relayer, path) := Ends(one, two)]);
      return true;
    }

    /** relayerChains: each relayer with a link, and the chains its links touch, each once. */
    method RelayerChains() returns (out: map<Relayer, seq<Chain>>)
      requires Valid(g)
      ensures forall r :: r in out <==> exists c :: Touches(g, r, c)
      ensures forall r :: r in out ==> Distinct(out[r]) && forall c :: c in out[r] <==> Touches(g, r, c)
    {
      var uniq := UniqueChains();
      out := map[];
      var left := uniq.Keys;
      while left != {}
        invariant left <= uniq.Keys && out.Keys == uniq.Keys - left
        invariant forall r :: r in out ==> Distinct(out[r]) && forall c :: c in out[r] <==> c in uniq[r]
        decreases left
      {
        hide Distinct;
        var r :| r in left;
        left := left - {r};
        var chains := Listing(uniq[r]);
        out := out[r := chains];
      }
    }

    /** generateRelayerWallets: one wallet per relayer and chain it touches. The chain's own
        BuildRelayerWallet, which may fail, is the parameter `build`; `asked` are the pairs it
        was called for, in order. */
    method GenerateRelayerWallets(build: Builds) returns (status: Status, ghost asked: seq<RelayerChain>)
      requires Valid(g)
      modifies `relayerWallets
      ensures status == Panic <==> old(relayerWallets).Some?
      ensures status == Panic ==> relayerWallets == old(relayerWallets)
      ensures status == Failed ==>
                relayerWallets.Some? && RefusedLast(g, build, relayerWallets.value, asked)
      ensures status == Done ==>
                relayerWallets.Some? &&
                forall n :: 0 <= n < |asked| ==>
                  var r, c := asked[n].r, asked[n].c;
                  && asked[n] in relayerWallets.value && r in g.relayers && c in g.chains
                  && build(n, c, g.relayers[r] + "-" + g.chains[c]) == Some(relayerWallets.value[asked[n]])
      ensures status == Failed ==>
                asked != [] &&
                var rc := asked[|asked| - 1];
                && rc.r in g.relayers && rc.c in g.chains
                && build(|asked| - 1, rc.c, g.relayers[rc.r] + "-" + g.chains[rc.c]) == None
      ensures status == Done ==>
                && relayerWallets.Some? && Built(g, build, relayerWallets.value, asked)
                && forall rc :: rc in relayerWallets.value <==> Paired(g, rc)
    {
      hide Built, RefusedLast, Valid;
      if relayerWallets.Some? { return Panic, []; }
      var relayerChains := RelayerChains();
      var wallets: map<RelayerChain, string>, calls := map[], 0;
      asked := [];
      NothingBuilt(g, build);
      var rest := relayerChains.Keys;
      while rest != {}
        invariant rest <= relayerChains.Keys && calls == |asked|
        invariant forall rc: RelayerChain :: rc in wallets <==>
                    rc.r in relayerChains && rc.r !in rest && rc.c in relayerChains[rc.r]
        invariant Built(g, build, wallets, asked)
        decreases rest
      {
        hide Distinct, Paired;
        var r :| r in rest;
        rest := rest - {r};
        var ok, more, n, asked' := WalletsFor(r, relayerChains[r], build, wallets, calls, asked);
        wallets, calls, asked := more, n, asked';
        if !ok {
          relayerWallets := Some(wallets);
          RefusedMeans(g, build, wallets, asked);
          return Failed, asked;
        }
      }
      relayerWallets := Some(wallets);
      BuiltMeans(g, build, wallets, asked);
      return Done, asked;
    }

    /** The inner loop: the wallets of one relayer. */
    method WalletsFor(r: Relayer, chains: seq<Chain>, build: Builds,
                      before: map<RelayerChain, string>, from: nat, ghost sofar: seq<RelayerChain>)
        returns (ok: bool, wallets: map<RelayerChain, string>, calls: nat, ghost asked: seq<RelayerChain>)
      requires Built(g, build, before, sofar) && from == |sofar|
      requires Distinct(chains) && forall c :: c in chains ==> Touches(g, r, c)
      requires forall rc: RelayerChain :: rc in before ==> rc.r != r
      ensures calls == |asked|
      ensures ok ==> Built(g, build, wallets, asked)
      ensures ok ==> forall rc :: rc in wallets <==> rc in before || (rc.r == r && rc.c in chains)
      ensures !ok ==> RefusedLast(g, build, wallets, asked)
    {
      hide Built, RefusedLast;
      wallets, calls, asked := before, from, sofar;
      for i := 0 to |chains|
        invariant Built(g, build, wallets, asked) && calls == |asked|
        invariant forall rc :: rc in wallets <==> rc in before || (rc.r == r && rc.c in chains[..i])
      {
        var rc := RelayerChain(r, chains[i]);
        assert rc !in asked && Paired(g, rc) by { NotYetAsked(g, build, wallets, asked, rc); }
        var wallet := build(calls, rc.c, AccountName(g, rc));
        calls := calls + 1;
        if wallet == None {
          RefusedAfter(g, build, wallets, asked, rc);
          return false, wallets, calls, asked + [rc];
        }
        assert chains[..i + 1] == chains[..i] + [chains[i]];
        OneMoreBuilt(g, build, wallets, asked, rc, wallet.value);
        wallets, asked := wallets[rc := wallet.value], asked + [rc];
      }
      assert chains[..|chains|] == chains;
      return true, wallets, calls, asked;
    }

    /** genesisWalletAmounts, for the faucet addresses made for the chains, unless making them failed. */
    method GenesisWalletAmounts(accounts: Option<Chain -> string>)
        returns (result: Option<map<Chain, seq<Amount>>>, ghost orders: map<Chain, seq<Relayer>>)
      requires Valid(g) && relayerWallets.Some? && (forall rc :: rc in relayerWallets.value <==> Paired(g, rc))
      ensures result.Some? <==> accounts.Some?
      ensures result.Some? ==> Funded(g, accounts.value, relayerWallets.value, result.value, orders)
    {
      hide Valid, Paired, Funded;
      if accounts == None { return None, map[]; }
      var base := FaucetAmounts(accounts.value);
      var amounts;
      amounts, orders := PayRelayers(accounts.value, base, relayerWallets.value);
      AllPaid(g, accounts.value, relayerWallets.value, amounts, orders);
      return Some(amounts), orders;
    }

    /** The second loop of genesisWalletAmounts. */
    method PayRelayers(ghost faucet: Chain -> string, base: map<Chain, seq<Amount>>,
                       wallets: map<RelayerChain, string>)
        returns (amounts: map<Chain, seq<Amount>>, ghost orders: map<Chain, seq<Relayer>>)
      requires base.Keys == g.chains.Keys && forall c :: c in g.chains ==> base[c] == Base(g, faucet, c)
      requires Valid(g) && forall rc :: rc in wallets <==> Paired(g, rc)
      ensures Paid(g, faucet, wallets, wallets.Keys, amounts, orders)
    {
      hide Valid, Paired, Paid, Base;
      amounts := base;
      orders := map c | c in g.chains :: [];
      var left := wallets.Keys;
      NonePaid(g, faucet, wallets, amounts, orders);
      while left != {}
        invariant left <= wallets.Keys && amounts.Keys == g.chains.Keys == orders.Keys
        invariant Paid(g, faucet, wallets, wallets.Keys - left, amounts, orders)
        decreases left
      {
        var rc :| rc in left;
        var c := rc.c;
        PairInChains(g, rc);
        OneMorePaid(g, faucet, wallets, wallets.Keys - left, amounts, orders, rc);
        assert wallets.Keys - (left - {rc}) == (wallets.Keys - left) + {rc};
        left := left - {rc};
        amounts := amounts[c := amounts[c] + [Amount(wallets[rc], c.denom, RELAYER_UNITS)]];
        orders := orders[c := orders[c] + [rc.r]];
      }
      assert wallets.Keys - left == wallets.Keys;
    }

    /** The first loop of genesisWalletAmounts. */
    method FaucetAmounts(faucet: Chain -> string) returns (amounts: map<Chain, seq<Amount>>)
      ensures amounts.Keys == g.chains.Keys
      ensures forall c :: c in g.chains ==> amounts[c] == Base(g, faucet, c)
    {
      amounts := map[];
      var rest := g.chains.Keys;
      while rest != {}
        invariant rest <= g.chains.Keys && amounts.Keys == g.chains.Keys - rest
        invariant forall c :: c in amounts ==> amounts[c] == Base(g, faucet, c)
        decreases rest
      {
        var c :| c in rest;
        rest := rest - {c};
        amounts := amounts[c := [Amount(faucet(c), c.denom, FAUCET_UNITS)]];
        if c in g.additional { amounts := amounts[c := amounts[c] + g.additional[c]]; }
      }
    }

    /** The first half of relayerChains: relayers mapped to sets of chains. */
    method UniqueChains() returns (uniq: map<Relayer, set<Chain>>)
      requires Valid(g)
      ensures forall r :: r in uniq <==> exists c :: Touches(g, r, c)
      ensures forall r, c :: r in uniq ==> (c in uniq[r] <==> Touches(g, r, c))
    {
      uniq := map[];
      var rest := g.links.Keys;
      NothingGathered(g);
      while rest != {}
        invariant rest <= g.links.Keys
        invariant Gathered(g, g.links.Keys - rest, uniq)
        decreases rest
      {
        hide Gathered;
        var k :| k in rest;
        GatherOne(g, g.links.Keys - rest, uniq, k);
        var had := if k.relayer in uniq then uniq[k.relayer] else {};
        uniq := uniq[k.relayer := had + {g.links[k].one, g.links[k].two}];
        assert g.links.Keys - (rest - {k}) == (g.links.Keys - rest) + {k};
        rest := rest - {k};
      }
      assert g.links.Keys - rest == g.links.Keys;
      AllGathered(g, uniq);
    }
  }

  lemma NothingGathered(g: Registry)
    ensures Gathered(g, g.links.Keys - g.links.Keys, map[])
  {
  }

  /** The chains that some of the links tie to a relayer. */
  function ChainsOf(g: Registry, keys: set<LinkKey>, r: Relayer): set<Chain>
    requires keys <= g.links.Keys
  {
    (set k | k in keys && k.relayer == r :: g.links[k].one) + (set k | k in keys && k.relayer == r :: g.links[k].two)
  }

  /** The chain sets gathered from some of the links. */
  ghost predicate Gathered(g: Registry, keys: set<LinkKey>, uniq: map<Relayer, set<Chain>>)
  {
    && keys <= g.links.Keys
    && (forall r :: r in uniq <==> exists k :: k in keys && k.relayer == r)
    && (forall r :: r in uniq ==> uniq[r] == ChainsOf(g, keys, r))
  }

  lemma ChainsOfOneMore(g: Registry, keys: set<LinkKey>, key: LinkKey, r: Relayer)
    requires keys <= g.links.Keys && key in g.links
    ensures ChainsOf(g, keys + {key}, r) ==
            ChainsOf(g, keys, r) + if r == key.relayer then {g.links[key].one, g.links[key].two} else {}
  {
    var more := keys + {key};
    assert forall k :: k in more <==> k in keys || k == key;
    forall c | c in ChainsOf(g, keys, r) + if r == key.relayer then {g.links[key].one, g.links[key].two} else {}
      ensures c in ChainsOf(g, more, r)
    {
      if c in ChainsOf(g, keys, r) {
        var k :| k in keys && k.relayer == r && (g.links[k].one == c || g.links[k].two == c);
        assert k in more;
      } else {
        assert key in more;
      }
    }
  }

  lemma GatherOne(g: Registry, keys: set<LinkKey>, uniq: map<Relayer, set<Chain>>, key: LinkKey)
    requires Gathered(g, keys, uniq) && key in g.links
    ensures var had := if key.relayer in uniq then uniq[key.relayer] else {};
            Gathered(g, keys + {key}, uniq[key.relayer := had + {g.links[key].one, g.links[key].two}])
  {
    hide ChainsOf;
    var had := if key.relayer in uniq then uniq[key.relayer] else {};
    var u := uniq[key.relayer := had + {g.links[key].one, g.links[key].two}];
    forall r | r in u
      ensures u[r] == ChainsOf(g, keys + {key}, r) && exists k :: k in keys + {key} && k.relayer == r
    {
      ChainsOfOneMore(g, keys, key, r);
      if key.relayer !in uniq { NoChains(g, keys, key.relayer); }
      if r == key.relayer {
        assert key in keys + {key};
      } else {
        var k :| k in keys && k.relayer == r;
        assert k in keys + {key};
      }
    }
  }

  lemma NoChains(g: Registry, keys: set<LinkKey>, r: Relayer)
    requires keys <= g.links.Keys && forall k :: k in keys ==> k.relayer != r
    ensures ChainsOf(g, keys, r) == {}
  {
  }

  lemma AllGathered(g: Registry, uniq: map<Relayer, set<Chain>>)
    requires Gathered(g, g.links.Keys, uniq)
    ensures forall r :: r in uniq <==> exists c :: Touches(g, r, c)
    ensures forall r, c :: r in uniq ==> (c in uniq[r] <==> Touches(g, r, c))
  {
    forall r | r in uniq
      ensures exists c :: Touches(g, r, c)
    {
      var k :| k in g.links.Keys && k.relayer == r;
      assert Touches(g, r, g.links[k].one);
    }
  }

  /** The elements of a set, each once, in any order. */
  method Listing<T(==)>(s: set<T>) returns (list: seq<T>)
    ensures Distinct(list) && forall x :: x in list <==> x in s
  {
    list := [];
    var rest := s;
    while rest != {}
      invariant rest <= s && Distinct(list) && forall x :: x in list <==> x in s - rest
      decreases rest
    {
      var x :| x in rest;
      assert forall i :: 0 <= i < |list| ==> list[i] in list;
      rest, list := rest - {x}, list + [x];
    }
  }
}
