/** The wallet repository as a finite map from id to wallet: lookup by id,
    the name probe that guards creation, and saving one wallet. */
module WalletStore {
  import opened Model

  type Wallets = map<WalletId, Wallet>

  /** The lookup by id: present exactly when the id is stored. */
  function FindById(wallets: Wallets, id: WalletId): (r: Option<Wallet>)
    ensures r.Some? <==> id in wallets
    ensures r.Some? ==> r.value == wallets[id]
  {
    if id in wallets then Some(wallets[id]) else None
  }

  /** The names the stored wallets carry. */
  function Names(wallets: Wallets): (r: set<string>)
  {
    set id | id in wallets :: wallets[id].name
  }

  /** The name probe: some stored wallet already carries this name. */
  function ExistsByName(wallets: Wallets, name: string): (b: bool)
    ensures b <==> name in Names(wallets)
  {
    exists id :: id in wallets && wallets[id].name == name
  }

  /** Saving a wallet under its id replaces that entry and no other. */
  function Save(wallets: Wallets, id: WalletId, w: Wallet): (r: Wallets)
    ensures r.Keys == wallets.Keys + {id}
    ensures id in r && r[id] == w
    ensures forall k :: k in wallets && k != id ==> k in r && r[k] == wallets[k]
  {
    wallets[id := w]
  }

  /** No two stored wallets share a name. */
  predicate NamesUnique(wallets: Wallets)
  {
    forall a, b :: a in wallets && b in wallets && wallets[a].name == wallets[b].name ==> a == b
  }

  /** Every wallet is stored under its own id. */
  predicate IdsCoherent(wallets: Wallets)
  {
    forall id :: id in wallets ==> wallets[id].id == id
  }

  /** Only the wallet stored under `id` may differ between the two maps, and
      the set of stored ids is the same. */
  predicate OthersUnchanged(before: Wallets, after: Wallets, id: WalletId)
  {
    && after.Keys == before.Keys
    && forall k :: k in before && k != id ==> after[k] == before[k]
  }

  /** Only the wallet stored under `id` changed, and only its balance, which
      moved by exactly `delta`. */
  predicate BalanceMoved(before: Wallets, after: Wallets, id: WalletId, delta: int)
  {
    && OthersUnchanged(before, after, id)
    && id in before
    && after[id] == before[id].(balance := before[id].balance + delta)
  }
}
