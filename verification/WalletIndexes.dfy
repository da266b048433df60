/**
 The two indexes of the wallet simulation: the staking operators of each wallet, and the wallets of each
 operator. They agree for the staking operators whatever opens, closes, joins or leaves.
 */
module WalletIndexes {
  type Members = map<nat, set<nat>>

  predicate Lists(operatorToWallets: Members, operator: nat, wallet: nat) {
    operator in operatorToWallets && wallet in operatorToWallets[operator]
  }

  predicate HasMember(walletStakers: Members, wallet: nat, operator: nat) {
    wallet in walletStakers && operator in walletStakers[wallet]
  }

  /** Wallets have only these operators, and each of them lists exactly the wallets that have it. */
  ghost predicate Agree(operators: set<nat>, operatorToWallets: Members, walletStakers: Members) {
    && (forall w :: w in walletStakers ==> walletStakers[w] <= operators)
    && (forall o, w :: o in operators ==> (Lists(operatorToWallets, o, w) <==> HasMember(walletStakers, w, o)))
  }

  function Without<T>(m: map<nat, T>, wallet: nat): map<nat, T> {
    map w | w in m && w != wallet :: m[w]
  }

  /** The wallet taken off the lists of its members. */
  function Unlisted(operatorToWallets: Members, members: set<nat>, wallet: nat): Members {
    map o | o in operatorToWallets :: if o in members then operatorToWallets[o] - {wallet} else operatorToWallets[o]
  }

  lemma ClosingKeepsAgreement(operators: set<nat>, operatorToWallets: Members, walletStakers: Members, wallet: nat)
    requires Agree(operators, operatorToWallets, walletStakers) && wallet in walletStakers
    ensures Agree(operators, Unlisted(operatorToWallets, walletStakers[wallet], wallet), Without(walletStakers, wallet))
  {
    var o2w, ws := Unlisted(operatorToWallets, walletStakers[wallet], wallet), Without(walletStakers, wallet);
    forall o, w | o in operators ensures Lists(o2w, o, w) <==> HasMember(ws, w, o) {
      assert Lists(operatorToWallets, o, w) <==> HasMember(walletStakers, w, o);
      assert Lists(operatorToWallets, o, wallet) <==> HasMember(walletStakers, wallet, o);
    }
  }

  function Enlisted(operatorToWallets: Members, members: set<nat>, wallet: nat): Members {
    map o | o in operatorToWallets.Keys + members ::
      if o !in members then operatorToWallets[o]
      else WalletsOf(operatorToWallets, o) + {wallet}
  }

  function WalletsOf(operatorToWallets: Members, operator: nat): set<nat> {
    if operator in operatorToWallets then operatorToWallets[operator] else {}
  }

  lemma UpdateTwice(m: Members, k: nat, a: set<nat>, b: set<nat>)
    ensures m[k := a][k := b] == m[k := b]
  {
  }

  lemma WithoutUpdated(m: Members, k: nat, a: set<nat>)
    ensures Without(m[k := a], k) == Without(m, k)
  {
  }

  lemma EnlistedNext(operatorToWallets: Members, members: set<nat>, wallet: nat, operator: nat)
    ensures var now := Enlisted(operatorToWallets, members, wallet);
            Enlisted(operatorToWallets, members + {operator}, wallet)
            == now[operator := WalletsOf(now, operator) + {wallet}]
  {
  }

  lemma EnlistedKeys(operatorToWallets: Members, members: set<nat>, wallet: nat)
    ensures Enlisted(operatorToWallets, members, wallet).Keys == operatorToWallets.Keys + members
  {
  }

  lemma EnlistedNone(operatorToWallets: Members, wallet: nat)
    ensures Enlisted(operatorToWallets, {}, wallet) == operatorToWallets
  {
  }

  lemma OpeningKeepsAgreement(operators: set<nat>, operatorToWallets: Members, walletStakers: Members,
                              members: set<nat>, wallet: nat)
    requires Agree(operators, operatorToWallets, walletStakers) && wallet !in walletStakers && members <= operators
    ensures Agree(operators, Enlisted(operatorToWallets, members, wallet), walletStakers[wallet := members])
  {
    var o2w, ws := Enlisted(operatorToWallets, members, wallet), walletStakers[wallet := members];
    forall o, w | o in operators ensures Lists(o2w, o, w) <==> HasMember(ws, w, o) {
      assert Lists(operatorToWallets, o, w) <==> HasMember(walletStakers, w, o);
    }
  }

  lemma NewcomersAgree(operators: set<nat>, operatorToWallets: Members, walletStakers: Members, newcomers: set<nat>)
    requires Agree(operators, operatorToWallets, walletStakers)
    requires newcomers !! operators && newcomers !! operatorToWallets.Keys
    ensures Agree(operators + newcomers, operatorToWallets, walletStakers)
  {
    forall o, w | o in operators + newcomers
      ensures Lists(operatorToWallets, o, w) <==> HasMember(walletStakers, w, o)
    {
      if o in operators {
        assert Lists(operatorToWallets, o, w) <==> HasMember(walletStakers, w, o);
      }
    }
  }

  /** An operator that leaves one of the wallets it lists. */
  lemma LeavingOneWallet(operators: set<nat>, operatorToWallets: Members, walletStakers: Members,
                         operator: nat, wallets: set<nat>, wallet: nat)
    requires operator in operators && wallet in wallets
    requires Agree(operators, operatorToWallets[operator := wallets], walletStakers)
    ensures HasMember(walletStakers, wallet, operator)
    ensures Agree(operators, operatorToWallets[operator := wallets - {wallet}],
                  walletStakers[wallet := walletStakers[wallet] - {operator}])
  {
    var before := operatorToWallets[operator := wallets];
    assert Lists(before, operator, wallet);
    var o2w := operatorToWallets[operator := wallets - {wallet}];
    var ws := walletStakers[wallet := walletStakers[wallet] - {operator}];
    forall o, w | o in operators ensures Lists(o2w, o, w) <==> HasMember(ws, w, o) {
      assert Lists(before, o, w) <==> HasMember(walletStakers, w, o);
    }
  }

  /** The closing of a wallet while an operator that has already left it goes through the rest of its list. */
  lemma ClosingWhileLeaving(operators: set<nat>, operatorToWallets: Members, walletStakers: Members,
                            operator: nat, wallets: set<nat>, wallet: nat)
    requires Agree(operators, operatorToWallets[operator := wallets], walletStakers)
    requires wallet in walletStakers && operator !in walletStakers[wallet]
    ensures Agree(operators, Unlisted(operatorToWallets, walletStakers[wallet], wallet)[operator := wallets],
                  Without(walletStakers, wallet))
  {
    var o2w := operatorToWallets[operator := wallets];
    ClosingKeepsAgreement(operators, o2w, walletStakers, wallet);
    assert Unlisted(o2w, walletStakers[wallet], wallet)
        == Unlisted(operatorToWallets, walletStakers[wallet], wallet)[operator := wallets];
  }

  /** An operator that has left all its wallets can be forgotten; its list may keep closed or former wallets. */
  lemma LeftEverywhere(operators: set<nat>, operatorToWallets: Members, walletStakers: Members, operator: nat)
    requires operator !in operators
    requires Agree(operators + {operator}, operatorToWallets[operator := {}], walletStakers)
    ensures Agree(operators, operatorToWallets, walletStakers)
  {
    var o2w := operatorToWallets[operator := {}];
    forall w | w in walletStakers ensures walletStakers[w] <= operators {
      assert Lists(o2w, operator, w) <==> HasMember(walletStakers, w, operator);
    }
    forall o, w | o in operators ensures Lists(operatorToWallets, o, w) <==> HasMember(walletStakers, w, o) {
      assert Lists(o2w, o, w) <==> HasMember(walletStakers, w, o);
    }
  }

  lemma KnownWhileLeaving(operators: set<nat>, operatorToWallets: Members, walletStakers: Members,
                          operator: nat, wallets: set<nat>, wallet: nat)
    requires Agree(operators, operatorToWallets[operator := wallets], walletStakers)
    requires wallet in walletStakers && operator !in walletStakers[wallet]
    ensures walletStakers[wallet] <= operatorToWallets.Keys
  {
    forall o | o in walletStakers[wallet] ensures o in operatorToWallets {
      assert HasMember(walletStakers, wallet, o);
      assert Lists(operatorToWallets[operator := wallets], o, wallet);
    }
  }

  lemma ListsNothing(operators: set<nat>, operatorToWallets: Members, walletStakers: Members, operator: nat)
    requires operator in operators && operator !in operatorToWallets
    requires Agree(operators, operatorToWallets, walletStakers)
    ensures Agree(operators, operatorToWallets[operator := {}], walletStakers)
  {
    var o2w := operatorToWallets[operator := {}];
    forall o, w | o in operators ensures Lists(o2w, o, w) <==> HasMember(walletStakers, w, o) {
      assert Lists(operatorToWallets, o, w) <==> HasMember(walletStakers, w, o);
    }
  }

  lemma AgreementKnowsMembers(operators: set<nat>, operatorToWallets: Members, walletStakers: Members, wallet: nat)
    requires Agree(operators, operatorToWallets, walletStakers) && wallet in walletStakers
    ensures walletStakers[wallet] <= operatorToWallets.Keys
  {
    forall o | o in walletStakers[wallet] ensures o in operatorToWallets {
      assert HasMember(walletStakers, wallet, o);
      assert Lists(operatorToWallets, o, wallet);
    }
  }
}
