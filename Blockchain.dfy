/**
 * The HuskyCoin blockchain (hw8/blockchain.py): transactions, their text
 * rendering, a ledger of balances kept in a `CustomHashMap`, and a chain of
 * blocks whose transactions are replayed against a copy of the ledger.
 *
 * SHA-256 block hashing is not modelled: the hash of a block is a function
 * given to the chain's constructor.
 */
module Blockchain {
  import opened Util
  import opened HashMap
  import opened Strings

  const RootUser: string := "ROOT"
  const BlockReward: int := 1000
  const TotalAvailableTokens: int := 999999
  /** The width of a user name column in `Transaction.__str__`. */
  const UserLen: nat := 10
  /** The width of the amount column. */
  const AmountLen: nat := 5

  datatype Transaction = Transaction(sender: string, receiver: string, amount: int)

  /** The zero-filled amount column reads back as the amount. */
  lemma AmountFieldRoundTrip(n: nat)
    ensures IsDigits(ZFill(NatToString(n), AmountLen))
    ensures DigitsValue(ZFill(NatToString(n), AmountLen)) == n
  {
    var s := NatToString(n);
    NatToStringRoundTrip(n);
    if |s| < AmountLen {
      ZerosValue(AmountLen - |s|, s);
    }
  }

  // ---------------------------------------------------------------------------
  // Transaction rendering

  /** A user name column: padded with spaces to ten characters, or cut to seven followed by "...". */
  function UserField(name: string): (r: string)
    ensures |r| == UserLen
    ensures |name| <= UserLen ==> r[..|name|] == name && forall i :: |name| <= i < UserLen ==> r[i] == ' '
    ensures |name| > UserLen ==> r[..UserLen - 3] == name[..UserLen - 3] && r[UserLen - 3..] == "..."
  {
    if |name| > UserLen then name[..UserLen - 3] + "..."
    else name + seq(UserLen - |name|, _ => ' ')
  }

  /**
   * `Transaction.__str__`: the sender and receiver columns, the arrow and
   * the colon sit at the same positions whatever the names and amount.
   */
  function TransactionString(t: Transaction): (s: string)
    ensures |s| >= 37
    ensures s[..10] == UserField(t.sender) && s[10..14] == " -> " && s[14..24] == UserField(t.receiver)
    ensures s[24..26] == ": " && s[|s| - 6..] == " HSKYC"
  {
    UserField(t.sender) + " -> " + UserField(t.receiver) + ": " + ZFill(IntToString(t.amount), AmountLen) + " HSKYC"
  }

  /**
   * For an amount below 100000 the rendering has a fixed width, and the
   * name columns and the amount read back from fixed positions.
   */
  lemma TransactionStringColumns(t: Transaction)
    requires 0 <= t.amount < 100000
    ensures var s := TransactionString(t);
      && |s| == 37
      && s[..10] == UserField(t.sender)
      && s[14..24] == UserField(t.receiver)
      && IsDigits(s[26..31]) && DigitsValue(s[26..31]) == t.amount
  {
    var s := TransactionString(t);
    var a := ZFill(IntToString(t.amount), AmountLen);
    assert Pow10(5) == 100000;
    NatToStringLength(t.amount, 5);
    AmountFieldRoundTrip(t.amount);
    assert s[26..31] == a;
  }

  function Pow10(k: nat): (p: nat)
    ensures p >= 1
  {
    if k == 0 then 1 else 10 * Pow10(k - 1)
  }

  /** A number below 10^k has at most k digits. */
  lemma {:induction false} NatToStringLength(n: nat, k: nat)
    requires 1 <= k && n < Pow10(k)
    ensures |NatToString(n)| <= k
  {
    assert Pow10(1) == 10;
    if n >= 10 {
      NatToStringLength(n / 10, k - 1);
    }
  }

  /** `Transaction.__bytes__`: sender, receiver and amount concatenated, with no separator. */
  function TransactionBytes(t: Transaction): (b: string)
    ensures |b| == |t.sender| + |t.receiver| + |IntToString(t.amount)|
    ensures b[..|t.sender|] == t.sender
    ensures b[|t.sender|..|t.sender| + |t.receiver|] == t.receiver
    ensures b[|t.sender| + |t.receiver|..] == IntToString(t.amount)
  {
    t.sender + t.receiver + IntToString(t.amount)
  }

  /** Different transactions can have the same bytes, and so the same block hash input. */
  lemma TransactionBytesAmbiguous()
    ensures Transaction("ab", "c", 1) != Transaction("a", "bc", 1)
    ensures TransactionBytes(Transaction("ab", "c", 1)) == TransactionBytes(Transaction("a", "bc", 1))
  {
    assert NatToString(1) == "1";
  }

  // ---------------------------------------------------------------------------
  // The ledger as a map of balances

  /** `has_funds`: false for an unknown user; otherwise whether the balance covers the amount. */
  predicate HasFundsSpec(b: map<string, int>, user: string, amount: int)
  {
    user in b && b[user] >= amount
  }

  /** `deposit`: a new balance for an unknown user, otherwise the amount added. */
  function DepositSpec(b: map<string, int>, user: string, amount: int): (r: map<string, int>)
    ensures r.Keys == b.Keys + {user}
    ensures forall u :: u in b && u != user ==> r[u] == b[u]
  {
    b[user := if user in b then b[user] + amount else amount]
  }

  /** `withdraw`: ValueError for an unknown user or insufficient funds, otherwise the amount subtracted. */
  function WithdrawSpec(b: map<string, int>, user: string, amount: int): (r: Result<map<string, int>>)
    ensures r.Ok? <==> HasFundsSpec(b, user, amount)
    ensures r.Err? ==> r.error == ValueError
    ensures r.Ok? ==> r.value.Keys == b.Keys && r.value[user] == b[user] - amount
    ensures r.Ok? ==> forall u :: u in b && u != user ==> r.value[u] == b[u]
  {
    if user !in b then Err(ValueError)
    else if b[user] < amount then Err(ValueError)
    else Ok(b[user := b[user] - amount])
  }

  /**
   * One transaction of `add_block`: withdraw from the sender, deposit to
   * the receiver, or fail exactly when the sender lacks the funds. A
   * success opens the receiver's account if it had none.
   */
  function ApplyTransaction(b: map<string, int>, t: Transaction): (r: Option<map<string, int>>)
    ensures r.Some? <==> HasFundsSpec(b, t.sender, t.amount)
    ensures r.Some? ==> r.value.Keys == b.Keys + {t.receiver}
  {
    if HasFundsSpec(b, t.sender, t.amount) then
      Some(DepositSpec(WithdrawSpec(b, t.sender, t.amount).value, t.receiver, t.amount))
    else None
  }

  /**
   * The transactions of a block applied in order; `None` as soon as one
   * fails. A success keeps every account and opens one for each receiver.
   */
  function ApplyBlock(b: map<string, int>, txs: seq<Transaction>): (r: Option<map<string, int>>)
    ensures r.Some? ==> b.Keys <= r.value.Keys
    ensures r.Some? ==> forall k :: 0 <= k < |txs| ==> txs[k].receiver in r.value
  {
    if txs == [] then Some(b)
    else match ApplyBlock(b, txs[..|txs| - 1])
      case None => None
      case Some(b') => ApplyTransaction(b', txs[|txs| - 1])
  }

  /**
   * A transaction moves its amount from the sender to the receiver: every
   * other balance stays, a self-transfer changes nothing, and between two
   * existing accounts the sum of their balances is kept.
   */
  lemma TransferConserves(b: map<string, int>, t: Transaction)
    requires HasFundsSpec(b, t.sender, t.amount)
    ensures ApplyTransaction(b, t).Some?
    ensures var r := ApplyTransaction(b, t).value;
      && r.Keys == b.Keys + {t.receiver}
      && (forall u :: u in b && u != t.sender && u != t.receiver ==> r[u] == b[u])
      && (t.sender == t.receiver ==> r == b)
      && (t.sender != t.receiver && t.receiver in b ==>
            r[t.sender] + r[t.receiver] == b[t.sender] + b[t.receiver])
      && (t.sender != t.receiver && t.receiver !in b ==>
            r[t.sender] == b[t.sender] - t.amount && r[t.receiver] == t.amount)
  {
    var w := WithdrawSpec(b, t.sender, t.amount).value;
    var r := ApplyTransaction(b, t).value;
    if t.sender == t.receiver {
      assert r.Keys == b.Keys;
    }
  }

  /** A failed transaction fails the whole block, whatever follows it. */
  lemma {:induction false} ApplyBlockFails(b: map<string, int>, p: seq<Transaction>, q: seq<Transaction>)
    requires ApplyBlock(b, p).None?
    ensures ApplyBlock(b, p + q).None?
  {
    if q == [] {
      assert p + q == p;
    } else {
      var pq := p + q;
      assert pq[..|pq| - 1] == p + q[..|q| - 1];
      ApplyBlockFails(b, p, q[..|q| - 1]);
    }
  }

  /** Extending a block's prefix by one transaction. */
  lemma ApplyBlockStep(b: map<string, int>, txs: seq<Transaction>, i: nat)
    requires i < |txs| && ApplyBlock(b, txs[..i]).Some?
    ensures ApplyBlock(b, txs[..i + 1]) == ApplyTransaction(ApplyBlock(b, txs[..i]).value, txs[i])
  {
    assert txs[..i + 1][..i] == txs[..i];
  }

  /** A transaction the sender cannot pay for fails the whole block. */
  lemma ApplyBlockStopsAt(b: map<string, int>, txs: seq<Transaction>, i: nat)
    requires i < |txs| && ApplyBlock(b, txs[..i]).Some?
    requires !HasFundsSpec(ApplyBlock(b, txs[..i]).value, txs[i].sender, txs[i].amount)
    ensures ApplyBlock(b, txs).None?
  {
    ApplyBlockStep(b, txs, i);
    ApplyBlockFails(b, txs[..i + 1], txs[i + 1..]);
    assert txs[..i + 1] + txs[i + 1..] == txs;
  }

  /** With non-negative amounts, no balance ever becomes negative. */
  lemma {:induction false} ApplyBlockNonNegative(b: map<string, int>, txs: seq<Transaction>)
    requires forall u :: u in b ==> b[u] >= 0
    requires forall i :: 0 <= i < |txs| ==> txs[i].amount >= 0
    ensures ApplyBlock(b, txs).Some? ==> forall u :: u in ApplyBlock(b, txs).value ==> ApplyBlock(b, txs).value[u] >= 0
  {
    if txs != [] {
      var p := txs[..|txs| - 1];
      ApplyBlockNonNegative(b, p);
      if ApplyBlock(b, p).Some? {
        var t := txs[|txs| - 1];
        var b' := ApplyBlock(b, p).value;
        if HasFundsSpec(b', t.sender, t.amount) {
          var w := WithdrawSpec(b', t.sender, t.amount).value;
          assert forall u :: u in w ==> w[u] >= 0;
        }
      }
    }
  }

  /** A negative amount passes `has_funds` and drives the receiver's new balance negative. */
  lemma NegativeAmountAccepted()
    ensures ApplyBlock(map[RootUser := 0], [Transaction(RootUser, "bob", -5)]) ==
      Some(map[RootUser := 5, "bob" := -5])
  {
    var t := Transaction(RootUser, "bob", -5);
    var b := map[RootUser := 0];
    assert [t][..0] == [];
    assert ApplyBlock(b, [t]) == ApplyTransaction(b, t);
    assert HasFundsSpec(b, RootUser, -5);
    assert WithdrawSpec(b, RootUser, -5).value == map[RootUser := 5];
    assert "bob" != RootUser;
    assert DepositSpec(map[RootUser := 5], "bob", -5) == map[RootUser := 5, "bob" := -5];
  }

  /** The genesis ledger followed by one mining reward to another user. */
  lemma MiningRewardAfterGenesis(user: string)
    requires user != RootUser
    ensures ApplyBlock(map[RootUser := TotalAvailableTokens], [Transaction(RootUser, user, BlockReward)]) ==
      Some(map[RootUser := TotalAvailableTokens - BlockReward, user := BlockReward])
  {
    var t := Transaction(RootUser, user, BlockReward);
    var b := map[RootUser := TotalAvailableTokens];
    assert [t][..0] == [];
    assert ApplyBlock(b, [t]) == ApplyTransaction(b, t);
    assert WithdrawSpec(b, RootUser, BlockReward).value == map[RootUser := TotalAvailableTokens - BlockReward];
  }

  // ---------------------------------------------------------------------------
  // The ledger object

  /** `Ledger`: balances in a `CustomHashMap` from user name to amount. Entries are never deleted. */
  class Ledger {
    var accounts: CustomHashMap<string, int>

    ghost predicate Valid()
      reads this, accounts, accounts.table
    {
      accounts.Valid() && TombstoneFree(accounts.table[..]) && HasEmpty(accounts.table[..])
    }

    ghost function Balances(): map<string, int>
      reads this, accounts, accounts.table
    {
      accounts.Contents()
    }

    /** A ledger over an empty map. */
    constructor (hash: string -> nat)
      ensures Valid() && fresh(accounts) && fresh(accounts.table) && Balances() == map[]
    {
      accounts := new CustomHashMap<string, int>(hash);
    }

    /** A ledger over the given map. */
    constructor Over(m: CustomHashMap<string, int>)
      requires m.Valid() && TombstoneFree(m.table[..]) && HasEmpty(m.table[..])
      ensures Valid() && accounts == m && Balances() == m.Contents()
    {
      accounts := m;
    }

    /** `Mapping.get`: the balance, or `None` for an unknown user. */
    method Get(user: string) returns (balance: Option<int>)
      requires Valid()
      ensures balance == if user in Balances() then Some(Balances()[user]) else None
    {
      var r := accounts.GetItem(user);
      balance := if r.Ok? then Some(r.value) else None;
    }

    method HasFunds(user: string, amount: int) returns (b: bool)
      requires Valid()
      ensures b == HasFundsSpec(Balances(), user, amount)
    {
      var balance := Get(user);
      if balance.None? {
        return false;
      }
      b := balance.value >= amount;
    }

    method Deposit(user: string, amount: int)
      requires Valid()
      modifies accounts, accounts.table
      ensures Valid() && Balances() == DepositSpec(old(Balances()), user, amount)
      ensures accounts.table == old(accounts.table) || fresh(accounts.table)
    {
      ghost var b := Balances();
      var present := accounts.Contains(user);
      var balance := amount;
      if present {
        var r := accounts.GetItem(user);
        balance := r.value + amount;
      }
      assert b[user := balance] == DepositSpec(b, user, amount);
      accounts.SetItem(user, balance);
      assert Balances() == accounts.Contents() == b[user := balance];
    }

    /**
     * The loop of `add_block` over the transactions, applied to the copied
     * ledger: each is a withdrawal from the sender and a deposit to the
     * receiver, stopping at the first whose sender lacks the funds.
     */
    method ApplyTransactions(txs: seq<Transaction>) returns (ok: bool)
      requires Valid()
      modifies accounts, accounts.table
      ensures Valid()
      ensures ok <==> ApplyBlock(old(Balances()), txs).Some?
      ensures ok ==> ApplyBlock(old(Balances()), txs) == Some(Balances())
      ensures accounts.table == old(accounts.table) || fresh(accounts.table)
    {
      ghost var b0 := Balances();
      var i := 0;
      ok := true;
      assert txs[..0] == [];
      while i < |txs| && ok
        invariant 0 <= i <= |txs|
        invariant Valid()
        invariant accounts.table == old(accounts.table) || fresh(accounts.table)
        invariant ok ==> ApplyBlock(b0, txs[..i]) == Some(Balances())
        invariant !ok ==> ApplyBlock(b0, txs).None?
      {
        ApplyBlockStep(b0, txs, i);
        ok := ApplyTransactionOf(txs[i]);
        if !ok {
          ApplyBlockStopsAt(b0, txs, i);
        }
        i := i + 1;
      }
      if ok {
        assert txs[..i] == txs;
      }
    }

    /** One transaction of a block: `ok` is false, and nothing changes, when the sender cannot pay. */
    method ApplyTransactionOf(t: Transaction) returns (ok: bool)
      requires Valid()
      modifies accounts, accounts.table
      ensures Valid()
      ensures ok <==> ApplyTransaction(old(Balances()), t).Some?
      ensures ApplyTransaction(old(Balances()), t) == if ok then Some(Balances()) else None
      ensures accounts.table == old(accounts.table) || fresh(accounts.table)
    {
      ok := HasFunds(t.sender, t.amount);
      if ok {
        var _ := Withdraw(t.sender, t.amount);
        Deposit(t.receiver, t.amount);
      }
    }

    method Withdraw(user: string, amount: int) returns (r: Outcome)
      requires Valid()
      modifies accounts, accounts.table
      ensures Valid()
      ensures var w := WithdrawSpec(old(Balances()), user, amount);
        && r == (if w.Ok? then Done else Raised(w.error))
        && Balances() == (if w.Ok? then w.value else old(Balances()))
      ensures accounts.table == old(accounts.table) || fresh(accounts.table)
    {
      var present := accounts.Contains(user);
      if !present {
        return Raised(ValueError);
      }
      var balance := Get(user);
      if balance.Some? && balance.value < amount {
        return Raised(ValueError);
      }
      ghost var b := Balances();
      var current := accounts.GetItem(user);
      var remaining := current.value - amount;
      assert WithdrawSpec(b, user, amount) == Ok(b[user := remaining]);
      accounts.SetItem(user, remaining);
      r := Done;
    }
  }

  // ---------------------------------------------------------------------------
  // The chain

  /** The previous-block field: empty for the genesis block, otherwise the previous block's hash. */
  datatype Digest = NoDigest | Digest(value: nat)

  datatype Block = Block(previousHash: Digest, transactions: seq<Transaction>)

  function GenesisBlock(): Block
  {
    Block(NoDigest, [Transaction(RootUser, RootUser, TotalAvailableTokens)])
  }

  class Blockchain {
    /** The block hash (SHA-256 of the block's bytes in the source). */
    const blockHash: Block -> nat
    var chain: seq<Block>
    var ledger: Ledger

    ghost predicate Valid()
      reads this, ledger, ledger.accounts, ledger.accounts.table
    {
      |chain| >= 1 && ledger.Valid()
    }

    ghost function Balances(): map<string, int>
      reads this, ledger, ledger.accounts, ledger.accounts.table
    {
      ledger.Balances()
    }

    /** A chain holding the genesis block, whose transaction gives ROOT every token. */
    constructor (hash: string -> nat, blockHash: Block -> nat)
      ensures Valid() && this.blockHash == blockHash
      ensures chain == [GenesisBlock()]
      ensures Balances() == map[RootUser := TotalAvailableTokens]
    {
      this.blockHash := blockHash;
      chain := [GenesisBlock()];
      var l := new Ledger(hash);
      ledger := l;
      new;
      l.Deposit(RootUser, TotalAvailableTokens);
    }

    /**
     * `add_block`: the block is appended first; its transactions are then
     * replayed on a copy of the ledger, which replaces the ledger only if
     * every one of them succeeds. A failure raises ValueError and keeps the
     * old ledger, but not the old chain.
     */
    method AddBlock(txs: seq<Transaction>) returns (r: Outcome)
      requires Valid()
      modifies this
      ensures Valid()
      ensures chain == old(chain) + [Block(Digest(blockHash(old(chain)[|old(chain)| - 1])), txs)]
      ensures r == if ApplyBlock(old(Balances()), txs).Some? then Done else Raised(ValueError)
      ensures ApplyBlock(old(Balances()), txs).Some? ==> Some(Balances()) == ApplyBlock(old(Balances()), txs)
      ensures r.Raised? ==> ledger == old(ledger) && Balances() == old(Balances())
    {
      chain := chain + [Block(Digest(blockHash(chain[|chain| - 1])), txs)];
      var next := CopyLedger(ledger);
      var ok := next.ApplyTransactions(txs);
      if !ok {
        return Raised(ValueError);
      }
      ledger := next;
      r := Done;
    }

    /** The copy of the ledger that `add_block` replays the transactions on. */
    static method CopyLedger(l: Ledger) returns (next: Ledger)
      requires l.Valid()
      ensures fresh(next) && fresh(next.accounts) && fresh(next.accounts.table)
      ensures next.Valid() && next.Balances() == l.Balances()
    {
      var copy := new CustomHashMap<string, int>.Copy(l.accounts);
      next := new Ledger.Over(copy);
    }

    /** `distribute_mining_reward`: a block of one transaction of the block reward from ROOT. */
    method DistributeMiningReward(user: string) returns (r: Outcome)
      requires Valid()
      modifies this
      ensures Valid()
      ensures chain == old(chain) + [Block(Digest(blockHash(old(chain)[|old(chain)| - 1])), [Transaction(RootUser, user, BlockReward)])]
      ensures var a := ApplyBlock(old(Balances()), [Transaction(RootUser, user, BlockReward)]);
        && r == (if a.Some? then Done else Raised(ValueError))
        && Balances() == (if a.Some? then a.value else old(Balances()))
    {
      r := AddBlock([Transaction(RootUser, user, BlockReward)]);
    }
  }
}
