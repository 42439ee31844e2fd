/** One transaction: what it is charged, what its message does, and who is paid what is left. */
module RunTxs {
  import opened Base
  import opened SimpleStateManagers
  import opened EvmModel
  import opened Evms
  import CopyStack

  datatype Tx =
    Tx(sender: Address, to: Option<Address>, value: nat, data: Bytes, gasLimit: nat, nonce: nat,
       typed: bool, feeMarket: bool, gasPrice: nat, maxFeePerGas: nat, maxPriorityFeePerGas: nat,
       isBlob: bool, numBlobs: nat, maxFeePerBlobGas: nat, intrinsicGas: nat)

  /** The block, and the parameters of its hardfork. */
  datatype Block =
    Block(coinbase: Address, gasLimit: nat, baseFeePerGas: nat, blobGasPrice: nat, eip1559: bool, eip2718: bool,
          eip2930: bool, eip4844: bool, eip7623: bool, eip7702: bool, txGas: nat, totalCostFloorPerToken: nat,
          blobGasPerBlob: nat, maxRefundQuotient: nat)

  /** What the code of the transaction comes to, and the gas and refund it reports. */
  datatype Execution =
    Execution(code: Code, creation: Creation, init: Option<Run>, executionGasUsed: nat, gasRefund: nat)

  datatype TxError =
    | AboveBlockGasLimit
    | AccessListsNotActive
    | FeeMarketNotActive
    | GasLimitTooLow
    | FeeBelowBaseFee
    | SenderNotEoa
    | CannotAffordUpfrontCost
    | BlobsNotActive
    | BlobFeeTooLow
    | CannotAffordMaxCost
    | WrongNonce

  datatype TxResult = TxResult(totalGasSpent: nat, amountSpent: nat, minerValue: nat)

  /** Calldata tokens of EIP-7623: one for a zero byte, four for any other. */
  function Tokens(data: Bytes): nat {
    if data == [] then 0 else Tokens(data[..|data| - 1]) + if data[|data| - 1] == 0 then 1 else 4
  }

  function Floor(tx: Tx, b: Block): nat {
    if b.eip7623 then b.txGas + b.totalCostFloorPerToken * Tokens(tx.data) else 0
  }

  /** The part of the price that goes to the miner once there is a base fee. */
  function InclusionFee(tx: Tx, b: Block): nat
    requires (if tx.feeMarket then tx.maxFeePerGas else tx.gasPrice) >= b.baseFeePerGas
  {
    if tx.feeMarket then Min(tx.maxPriorityFeePerGas, tx.maxFeePerGas - b.baseFeePerGas)
    else tx.gasPrice - b.baseFeePerGas
  }

  ghost predicate PaysBaseFee(tx: Tx, b: Block) {
    (tx.feeMarket || b.eip1559) ==> (if tx.feeMarket then tx.maxFeePerGas else tx.gasPrice) >= b.baseFeePerGas
  }

  function GasPrice(tx: Tx, b: Block): nat
    requires PaysBaseFee(tx, b)
  {
    if tx.feeMarket then InclusionFee(tx, b) + b.baseFeePerGas else tx.gasPrice
  }

  function BlobCost(tx: Tx, b: Block): nat {
    if tx.isBlob then b.blobGasPerBlob * tx.numBlobs * b.blobGasPrice else 0
  }

  /** The gas paid for: what was used less the capped refund, but never less than the floor. */
  function GasSpent(tx: Tx, b: Block, x: Execution): (spent: nat)
    requires b.maxRefundQuotient > 0
    ensures var used := x.executionGasUsed + tx.intrinsicGas;
            && Floor(tx, b) <= spent && spent <= Max(used, Floor(tx, b))
            && used - spent <= x.gasRefund && used - spent <= used / b.maxRefundQuotient
  {
    var used := x.executionGasUsed + tx.intrinsicGas;
    CapBelow(used, b.maxRefundQuotient);
    Max(used - Min(x.gasRefund, used / b.maxRefundQuotient), Floor(tx, b))
  }

  /** The gas paid for is the least that the floor, the refund and its cap allow: the refund is given in full. */
  lemma {:induction false} LeastGasSpent(tx: Tx, b: Block, x: Execution, s: int)
    requires b.maxRefundQuotient > 0 && Floor(tx, b) <= s
    requires var used := x.executionGasUsed + tx.intrinsicGas;
             used - s <= x.gasRefund && used - s <= used / b.maxRefundQuotient
    ensures GasSpent(tx, b, x) <= s
  {
  }

  lemma {:induction false} CapBelow(used: nat, quotient: nat)
    requires quotient > 0
    ensures 0 <= used / quotient <= used
  {
    var d := used / quotient;
    assert used == d * quotient + used % quotient;
    Fewer(1, quotient, d);
  }

  function MinerValue(tx: Tx, b: Block, spent: nat): nat
    requires PaysBaseFee(tx, b)
  {
    spent * if b.eip1559 then InclusionFee(tx, b) else GasPrice(tx, b)
  }

  function TheMessage(tx: Tx, x: Execution): Message {
    Message(tx.sender, tx.to, tx.value, false, x.code, x.creation, x.init, 0)
  }

  /** The sender's account after the whole gas limit and the blobs are paid for in advance. */
  function Charged(r: Rules, w: World, tx: Tx, b: Block): World
    requires PaysBaseFee(tx, b) && Affords(r, w, tx, b)
  {
    Debited(r, w, tx.sender, tx.gasLimit * GasPrice(tx, b) + BlobCost(tx, b))
  }

  ghost predicate Affords(r: Rules, w: World, tx: Tx, b: Block)
    requires PaysBaseFee(tx, b)
  {
    Get(r, w, tx.sender).balance >= tx.gasLimit * GasPrice(tx, b) + BlobCost(tx, b) + tx.value
  }

  function Ran(r: Rules, w: World, tx: Tx, b: Block, x: Execution): Outcome
    requires PaysBaseFee(tx, b) && Affords(r, w, tx, b)
  {
    RunMessage(r, Charged(r, w, tx, b), TheMessage(tx, x))
  }

  /** The accounts once the unused gas is given back and the miner is paid, in this order. */
  function Settled(r: Rules, w: World, tx: Tx, b: Block, x: Execution): World
    requires PaysBaseFee(tx, b) && Affords(r, w, tx, b)
    requires b.maxRefundQuotient > 0 && GasSpent(tx, b, x) <= tx.gasLimit
  {
    var spent := GasSpent(tx, b, x);
    Fewer(spent, tx.gasLimit, GasPrice(tx, b));
    var back := tx.gasLimit * GasPrice(tx, b) - spent * GasPrice(tx, b);
    Credited(r, Credited(r, Ran(r, w, tx, b, x).world, tx.sender, back), b.coinbase, MinerValue(tx, b, spent))
  }

  lemma {:induction false} Fewer(a: nat, b: nat, price: nat)
    requires a <= b
    ensures a * price <= b * price
  {
  }

  /** The gas limit covers what execution, the refund cap and the floor can come to. */
  lemma {:induction false} SpentWithinLimit(tx: Tx, b: Block, x: Execution)
    requires b.maxRefundQuotient > 0
    requires tx.gasLimit >= Max(tx.intrinsicGas, Floor(tx, b)) && x.executionGasUsed + tx.intrinsicGas <= tx.gasLimit
    ensures GasSpent(tx, b, x) <= tx.gasLimit
  {
  }

  /** What leaves the accounts for good: the base fee of the gas paid for, and the blobs. */
  function Gone(tx: Tx, b: Block, x: Execution): nat
    requires b.maxRefundQuotient > 0
  {
    (if b.eip1559 then GasSpent(tx, b, x) * b.baseFeePerGas else 0) + BlobCost(tx, b)
  }

  /** A charge, a message, a refund and a fee: the sum of balances follows the amounts, whoever gets the fee. */
  lemma {:induction false} ChargeRunRefund(r: Rules, w: World, m: Message, charge: nat, back: nat, miner: Address,
                                           fee: nat)
    requires Get(r, w, m.caller).balance >= charge
    requires m.to.None? ==> Get(r, Debited(r, w, m.caller, charge), m.caller).balance >= m.value
    ensures var o := RunMessage(r, Debited(r, w, m.caller, charge), m);
            Total(Credited(r, Credited(r, o.world, m.caller, back), miner, fee)) + charge + o.burned ==
            Total(w) + back + fee
  {
    hide Total, RunMessage;
    TotalPut(r, w, m.caller, Paid(Get(r, w, m.caller), charge));
    MessageConserves(r, Debited(r, w, m.caller, charge), m);
    var after := RunMessage(r, Debited(r, w, m.caller, charge), m).world;
    TotalPut(r, after, m.caller, Received(Get(r, after, m.caller), back));
    var refunded := Credited(r, after, m.caller, back);
    TotalPut(r, refunded, miner, Received(Get(r, refunded, miner), fee));
  }

  /** The sum of balances drops by the burned base fee, the blob cost and what frames burned, whoever the miner is. */
  lemma {:induction false} SettlementConserves(r: Rules, w: World, tx: Tx, b: Block, x: Execution)
    requires PaysBaseFee(tx, b) && Affords(r, w, tx, b)
    requires b.maxRefundQuotient > 0 && GasSpent(tx, b, x) <= tx.gasLimit
    ensures Total(Settled(r, w, tx, b, x)) + Gone(tx, b, x) + Ran(r, w, tx, b, x).burned == Total(w)
  {
    hide Total, RunMessage, GasSpent, MinerValue, GasPrice, BlobCost, Get, Gone, Debited, Credited;
    var spent, price := GasSpent(tx, b, x), GasPrice(tx, b);
    Fewer(spent, tx.gasLimit, price);
    GoneParts(tx, b, x);
    CanStillPay(r, w, tx, b);
    ChargeRunRefund(r, w, TheMessage(tx, x), tx.gasLimit * price + BlobCost(tx, b),
                    tx.gasLimit * price - spent * price, b.coinbase, MinerValue(tx, b, spent));
  }

  /** What is paid for the gas is the miner's fee and what is gone for good. */
  lemma {:induction false} GoneParts(tx: Tx, b: Block, x: Execution)
    requires PaysBaseFee(tx, b) && b.maxRefundQuotient > 0
    ensures var spent := GasSpent(tx, b, x);
            spent * GasPrice(tx, b) + BlobCost(tx, b) == MinerValue(tx, b, spent) + Gone(tx, b, x)
  {
    hide GasSpent, GasPrice, BlobCost, MinerValue;
    PriceParts(tx, b, GasSpent(tx, b, x));
  }

  /** After the charge the value is still there. */
  lemma {:induction false} CanStillPay(r: Rules, w: World, tx: Tx, b: Block)
    requires PaysBaseFee(tx, b) && Affords(r, w, tx, b)
    ensures Get(r, Charged(r, w, tx, b), tx.sender).balance >= tx.value
  {
    hide GasPrice, BlobCost;
  }

  lemma {:induction false} TokensForm(data: Bytes, last: Byte)
    ensures Tokens([]) == 0 && Tokens(data + [last]) == Tokens(data) + if last == 0 then 1 else 4
  {
    assert (data + [last])[..|data|] == data;
  }

  lemma {:induction false} FloorForm(tx: Tx, b: Block)
    ensures Floor(tx, b) == if b.eip7623 then b.txGas + b.totalCostFloorPerToken * Tokens(tx.data) else 0
    ensures BlobCost(tx, b) == if tx.isBlob then b.blobGasPerBlob * tx.numBlobs * b.blobGasPrice else 0
  {
  }

  /**
    * A fee-market transaction pays the base fee and the largest tip that its two limits allow, any other its gas
    * price; the miner gets all of the price, or what is above the base fee once there is one.
    */
  lemma {:induction false} PriceForm(tx: Tx, b: Block, tip: nat, spent: nat)
    requires PaysBaseFee(tx, b) && (b.eip1559 || b.baseFeePerGas == 0)
    ensures !tx.feeMarket ==> GasPrice(tx, b) == tx.gasPrice
    ensures tx.feeMarket ==>
              && b.baseFeePerGas <= GasPrice(tx, b) <= tx.maxFeePerGas
              && GasPrice(tx, b) - b.baseFeePerGas <= tx.maxPriorityFeePerGas
              && (tip <= tx.maxPriorityFeePerGas && b.baseFeePerGas + tip <= tx.maxFeePerGas ==>
                    b.baseFeePerGas + tip <= GasPrice(tx, b))
    ensures MinerValue(tx, b, spent) == spent * (GasPrice(tx, b) - if b.eip1559 then b.baseFeePerGas else 0)
  {
  }

  /** The charge in advance: only the sender pays. */
  lemma {:induction false} ChargedForm(r: Rules, w: World, tx: Tx, b: Block, a: Address)
    requires PaysBaseFee(tx, b) && Affords(r, w, tx, b)
    ensures OnlyBalance(r, w, Charged(r, w, tx, b), a,
                        Get(r, w, a).balance
                        - if a == tx.sender then tx.gasLimit * GasPrice(tx, b) + BlobCost(tx, b) else 0)
  {
    hide GasPrice, BlobCost;
  }

  /** What is left goes back to the sender and the fee to the miner, who may be one account. */
  lemma {:induction false} SettledForm(r: Rules, w: World, tx: Tx, b: Block, x: Execution, a: Address)
    requires PaysBaseFee(tx, b) && Affords(r, w, tx, b)
    requires b.maxRefundQuotient > 0 && GasSpent(tx, b, x) <= tx.gasLimit
    ensures var spent, after := GasSpent(tx, b, x), Ran(r, w, tx, b, x).world;
            OnlyBalance(r, after, Settled(r, w, tx, b, x), a,
                        Get(r, after, a).balance
                        + (if a == tx.sender then tx.gasLimit * GasPrice(tx, b) - spent * GasPrice(tx, b) else 0)
                        + (if a == b.coinbase then MinerValue(tx, b, spent) else 0))
  {
    hide GasPrice, BlobCost, MinerValue, GasSpent, RunMessage, Affords, Charged;
    Fewer(GasSpent(tx, b, x), tx.gasLimit, GasPrice(tx, b));
  }

  /**
    * A payment to quiet code, account by account: the sender pays the gas, the blobs and the value, the receiver
    * gets the value, the miner the fee, and nobody else's balance changes. The value stays if the code fails or
    * the receiver cannot hold it.
    */
  lemma {:induction false} PaymentForm(r: Rules, w: World, tx: Tx, b: Block, x: Execution, a: Address)
    requires PaysBaseFee(tx, b) && Affords(r, w, tx, b)
    requires b.maxRefundQuotient > 0 && GasSpent(tx, b, x) <= tx.gasLimit
    requires tx.to.Some? && Quiet(x.code)
    ensures var spent, price, to := GasSpent(tx, b, x), GasPrice(tx, b), tx.to.value;
            var before, after := Get(r, w, a), Get(r, Settled(r, w, tx, b, x), a);
            var own := if to == tx.sender then tx.gasLimit * price + BlobCost(tx, b) + tx.value else 0;
            var moved := if EndsWell(x.code) && Get(r, w, to).balance - own + tx.value <= MAX_INTEGER then tx.value
                         else 0;
            && after.nonce == before.nonce + (if a == tx.sender then 1 else 0) && after.codeHash == before.codeHash
            && after.balance ==
               before.balance - (if a == tx.sender then moved + spent * price + BlobCost(tx, b) else 0)
                              + (if a == to then moved else 0)
                              + (if a == b.coinbase then MinerValue(tx, b, spent) else 0)
  {
    hide GasPrice, BlobCost, MinerValue, GasSpent, RunMessage, Charged, Settled, Get, EndsWell;
    CanStillPay(r, w, tx, b);
    ChargedForm(r, w, tx, b, a);
    ChargedForm(r, w, tx, b, tx.sender);
    ChargedForm(r, w, tx, b, tx.to.value);
    PlainMessage(r, Charged(r, w, tx, b), TheMessage(tx, x), a);
    SettledForm(r, w, tx, b, x, a);
  }

  /**
    * A creation, account by account: the value goes to the new account with the code that is returned and paid for,
    * unless the address is taken, the code oversized or the creation fails; gas, blobs, fee and nonce as above.
    */
  lemma {:induction false} CreationForm(r: Rules, w: World, tx: Tx, b: Block, x: Execution, a: Address)
    requires PaysBaseFee(tx, b) && Affords(r, w, tx, b)
    requires b.maxRefundQuotient > 0 && GasSpent(tx, b, x) <= tx.gasLimit
    requires tx.to.None? && x.creation.address != tx.sender
    requires x.init.Some? && (x.init.value.Halts? || x.init.value.Fails?)
    ensures var spent, c, deposit := GasSpent(tx, b, x), x.creation, x.creation.deposit;
            var before, after, newborn := Get(r, w, a), Get(r, Settled(r, w, tx, b, x), a), Get(r, w, c.address);
            var ok := && !c.oversized && !c.hasStorage && newborn.nonce == 0 && newborn.codeHash == r.keccak([])
                      && newborn.balance + tx.value <= MAX_INTEGER && x.init.value.Halts?
                      && (deposit.Stored? || (deposit.Unpaid? && r.chainstart));
            && after.nonce == before.nonce + (if a == tx.sender then 1 else 0)
                              + (if ok && a == c.address && r.spuriousDragon then 1 else 0)
            && after.codeHash == (if ok && a == c.address && deposit.Stored? && deposit.code != []
                                  then r.keccak(deposit.code) else before.codeHash)
            && after.balance ==
               before.balance - (if a == tx.sender then spent * GasPrice(tx, b) + BlobCost(tx, b) else 0)
                              - (if ok && a == tx.sender then tx.value else 0)
                              + (if ok && a == c.address then tx.value else 0)
                              + (if a == b.coinbase then MinerValue(tx, b, spent) else 0)
  {
    hide GasPrice, BlobCost, MinerValue, GasSpent, RunMessage, Charged, Settled, Get;
    CanStillPay(r, w, tx, b);
    ChargedForm(r, w, tx, b, a);
    ChargedForm(r, w, tx, b, x.creation.address);
    PlainCreation(r, Charged(r, w, tx, b), TheMessage(tx, x), a);
    SettledForm(r, w, tx, b, x, a);
  }

  lemma {:induction false} PriceParts(tx: Tx, b: Block, spent: nat)
    requires PaysBaseFee(tx, b)
    ensures spent * GasPrice(tx, b) == MinerValue(tx, b, spent) + if b.eip1559 then spent * b.baseFeePerGas else 0
  {
  }

  function MaxCost(tx: Tx, b: Block): nat {
    tx.value + (if tx.feeMarket then tx.gasLimit * tx.maxFeePerGas else 0)
    + (if tx.isBlob then b.blobGasPerBlob * tx.numBlobs * tx.maxFeePerBlobGas else 0)
  }

  /** A transaction that this block and its hardfork can take at all. */
  predicate Admitted(tx: Tx, b: Block) {
    tx.gasLimit <= b.gasLimit && (tx.typed && b.eip2718 ==> b.eip2930 && (tx.feeMarket ==> b.eip1559))
  }

  /** A transaction that is let in. A sender with code passes whenever EIP-7702 is active. */
  ghost predicate Acceptable(r: Rules, from: Account, tx: Tx, b: Block) {
    && tx.gasLimit >= Max(tx.intrinsicGas, Floor(tx, b))
    && PaysBaseFee(tx, b)
    && (from.codeHash == r.keccak([]) || b.eip7702)
    && from.balance >= tx.gasLimit * GasPrice(tx, b) + tx.value && from.balance >= MaxCost(tx, b)
    && (tx.isBlob ==> b.eip4844 && tx.maxFeePerBlobGas >= b.blobGasPrice)
    && from.nonce == tx.nonce
  }

  /** The checks against the highest fees make sure the actual fees, blobs and value are covered together. */
  lemma {:induction false} AcceptableAffords(r: Rules, w: World, tx: Tx, b: Block)
    requires Acceptable(r, Get(r, w, tx.sender), tx, b) && (tx.isBlob ==> tx.feeMarket)
    ensures Affords(r, w, tx, b)
  {
    if tx.isBlob {
      Fewer(GasPrice(tx, b), tx.maxFeePerGas, tx.gasLimit);
      Fewer(b.blobGasPrice, tx.maxFeePerBlobGas, b.blobGasPerBlob * tx.numBlobs);
    }
  }

  /** Blobs come with fee-market transactions, a base fee with EIP-1559, and execution stays within its gas. */
  ghost predicate Reasonable(tx: Tx, b: Block, x: Execution) {
    && (b.eip1559 || b.baseFeePerGas == 0) && (tx.isBlob ==> tx.feeMarket) && b.maxRefundQuotient > 0
    && (tx.gasLimit >= tx.intrinsicGas ==> x.executionGasUsed + tx.intrinsicGas <= tx.gasLimit)
  }

  class VM {
    const evm: EVM

    constructor (evm: EVM)
      ensures this.evm == evm
    {
      this.evm := evm;
    }

    static method FloorCost(tx: Tx, b: Block) returns (floorCost: nat)
      ensures floorCost == Floor(tx, b)
    {
      floorCost := 0;
      if b.eip7623 {
        var tokens := 0;
        for i := 0 to |tx.data|
          invariant tokens == Tokens(tx.data[..i])
        {
          assert tx.data[..i + 1][..i] == tx.data[..i];
          tokens := tokens + if tx.data[i] == 0 then 1 else 4;
        }
        assert tx.data[..|tx.data|] == tx.data;
        floorCost := b.txGas + b.totalCostFloorPerToken * tokens;
      }
    }

    /** The checks before anything is charged, in their order. */
    static method Validate(r: Rules, from: Account, tx: Tx, b: Block) returns (error: Option<TxError>)
      requires (b.eip1559 || b.baseFeePerGas == 0) && (tx.isBlob ==> tx.feeMarket)
      ensures error.None? <==> Acceptable(r, from, tx, b)
      ensures error.None? <==>
              && tx.gasLimit >= tx.intrinsicGas && tx.gasLimit >= Floor(tx, b)
              && (b.eip1559 ==> (if tx.feeMarket then tx.maxFeePerGas else tx.gasPrice) >= b.baseFeePerGas)
              && (from.codeHash == r.keccak([]) || b.eip7702)
              && PaysBaseFee(tx, b) && from.balance >= tx.gasLimit * GasPrice(tx, b) + tx.value
              && (tx.isBlob ==> b.eip4844 && tx.maxFeePerBlobGas >= b.blobGasPrice)
              && from.balance >=
                 tx.value + (if tx.feeMarket then tx.gasLimit * tx.maxFeePerGas else 0)
                 + (if tx.isBlob then b.blobGasPerBlob * tx.numBlobs * tx.maxFeePerBlobGas else 0)
              && from.nonce == tx.nonce
      ensures error.Some? ==>
                match error.value
                case AboveBlockGasLimit | AccessListsNotActive | FeeMarketNotActive => false
                case GasLimitTooLow => tx.gasLimit < Max(tx.intrinsicGas, Floor(tx, b))
                case FeeBelowBaseFee => !PaysBaseFee(tx, b)
                case SenderNotEoa => from.codeHash != r.keccak([]) && !b.eip7702
                case CannotAffordUpfrontCost => PaysBaseFee(tx, b) &&
                  from.balance < tx.gasLimit * GasPrice(tx, b) + tx.value
                case BlobsNotActive => tx.isBlob && !b.eip4844
                case BlobFeeTooLow => tx.isBlob && tx.maxFeePerBlobGas < b.blobGasPrice
                case CannotAffordMaxCost => from.balance < MaxCost(tx, b)
                case WrongNonce => from.nonce != tx.nonce
    {
      var floorCost := FloorCost(tx, b);
      if tx.gasLimit < Max(tx.intrinsicGas, floorCost) {
        return Some(GasLimitTooLow);
      }
      if b.eip1559 {
        var maxFeePerGas := if tx.feeMarket then tx.maxFeePerGas else tx.gasPrice;
        if maxFeePerGas < b.baseFeePerGas {
          return Some(FeeBelowBaseFee);
        }
      }
      if from.codeHash != r.keccak([]) {
        if !b.eip7702 {
          return Some(SenderNotEoa);
        }
      }
      if from.balance < tx.gasLimit * GasPrice(tx, b) + tx.value {
        return Some(CannotAffordUpfrontCost);
      }
      var maxCost := tx.value;
      if tx.feeMarket {
        maxCost := maxCost + tx.gasLimit * tx.maxFeePerGas;
      }
      if tx.isBlob {
        if !b.eip4844 {
          return Some(BlobsNotActive);
        }
        maxCost := maxCost + b.blobGasPerBlob * tx.numBlobs * tx.maxFeePerBlobGas;
        if tx.maxFeePerBlobGas < b.blobGasPrice {
          return Some(BlobFeeTooLow);
        }
      }
      if from.balance < maxCost {
        return Some(CannotAffordMaxCost);
      }
      if from.nonce != tx.nonce {
        return Some(WrongNonce);
      }
      error := None;
    }

    /** The refund is capped first; then the floor applies. */
    static method TotalGasSpent(tx: Tx, b: Block, x: Execution) returns (totalGasSpent: nat)
      requires b.maxRefundQuotient > 0
      ensures totalGasSpent == GasSpent(tx, b, x)
    {
      totalGasSpent := x.executionGasUsed + tx.intrinsicGas;
      var gasRefund := x.gasRefund;
      if gasRefund != 0 {
        CapBelow(totalGasSpent, b.maxRefundQuotient);
        var maxRefund := totalGasSpent / b.maxRefundQuotient;
        gasRefund := if gasRefund < maxRefund then gasRefund else maxRefund;
        totalGasSpent := totalGasSpent - gasRefund;
      }
      if b.eip7623 {
        var floorCost := FloorCost(tx, b);
        if totalGasSpent < floorCost {
          totalGasSpent := floorCost;
        }
      }
    }

    /** Pay for the whole gas limit and the blobs in advance. */
    method BuyGas(tx: Tx, b: Block, fromAccount: Account)
      requires evm.Valid() && fromAccount == Get(evm.rules, Now(evm.stateManager.accountStack), tx.sender)
      requires PaysBaseFee(tx, b) && Affords(evm.rules, Now(evm.stateManager.accountStack), tx, b)
      modifies evm.stateManager`accountStack
      ensures evm.Valid() && SameBelow(evm.stateManager.accountStack, old(evm.stateManager.accountStack))
      ensures Now(evm.stateManager.accountStack) == Charged(evm.rules, Now(old(evm.stateManager.accountStack)), tx, b)
    {
      hide GasPrice, BlobCost;
      var txCost := tx.gasLimit * GasPrice(tx, b);
      var blobGasCost := BlobCost(tx, b);
      var balance := fromAccount.balance - txCost - blobGasCost;
      evm.stateManager.PutAccount(tx.sender, Some(fromAccount.(balance := balance)));
    }

    /** Give back what was not spent, then pay the miner, who may be the sender. */
    method PayOut(tx: Tx, b: Block, spent: nat) returns (result: TxResult)
      requires evm.Valid() && PaysBaseFee(tx, b) && spent * GasPrice(tx, b) <= tx.gasLimit * GasPrice(tx, b)
      modifies evm.stateManager`accountStack
      ensures evm.Valid() && SameBelow(evm.stateManager.accountStack, old(evm.stateManager.accountStack))
      ensures result == TxResult(spent, spent * GasPrice(tx, b), MinerValue(tx, b, spent))
      ensures var w := Now(old(evm.stateManager.accountStack));
              Now(evm.stateManager.accountStack) ==
              Credited(evm.rules, Credited(evm.rules, w, tx.sender,
                                          tx.gasLimit * GasPrice(tx, b) - spent * GasPrice(tx, b)),
                       b.coinbase, MinerValue(tx, b, spent))
    {
      hide GasPrice;
      var gasPrice := GasPrice(tx, b);
      var txCost, actualTxCost := tx.gasLimit * gasPrice, spent * gasPrice;
      var fromAccount := evm.Load(tx.sender);
      var txCostDiff := txCost - actualTxCost;
      evm.stateManager.PutAccount(tx.sender, Some(fromAccount.(balance := fromAccount.balance + txCostDiff)));
      var minerAccount := evm.Load(b.coinbase);
      var minerValue := if b.eip1559 then spent * InclusionFee(tx, b) else actualTxCost;
      evm.stateManager.PutAccount(b.coinbase, Some(minerAccount.(balance := minerAccount.balance + minerValue)));
      result := TxResult(spent, actualTxCost, minerValue);
    }

    ghost predicate ReceiptOf(result: TxResult, tx: Tx, b: Block, x: Execution)
      requires PaysBaseFee(tx, b) && b.maxRefundQuotient > 0
    {
      && result.totalGasSpent == GasSpent(tx, b, x)
      && result.amountSpent == result.totalGasSpent * GasPrice(tx, b)
      && result.minerValue == MinerValue(tx, b, result.totalGasSpent)
    }

    /** One transaction without its outer checkpoint. */
    method RunInside(tx: Tx, b: Block, x: Execution) returns (r: Result<TxResult, TxError>, ghost burned: nat)
      requires evm.Valid() && Reasonable(tx, b, x)
      modifies evm.stateManager
      ensures evm.Valid() && SameBelow(evm.stateManager.accountStack, old(evm.stateManager.accountStack))
      ensures r.Err? ==> !r.error.AboveBlockGasLimit? && !r.error.AccessListsNotActive? && !r.error.FeeMarketNotActive?
      ensures var w := Now(old(evm.stateManager.accountStack));
              && (r.Ok? <==> Acceptable(evm.rules, Get(evm.rules, w, tx.sender), tx, b))
              && (r.Ok? ==>
                    && PaysBaseFee(tx, b) && Affords(evm.rules, w, tx, b) && GasSpent(tx, b, x) <= tx.gasLimit
                    && ReceiptOf(r.value, tx, b, x)
                    && Now(evm.stateManager.accountStack) == Settled(evm.rules, w, tx, b, x)
                    && burned == Ran(evm.rules, w, tx, b, x).burned
                    && (BurnFreeMessage(TheMessage(tx, x)) ==> burned == 0))
    {
      hide RunMessage, GasSpent, GasPrice, MinerValue, BlobCost, Affords, Get, PaysBaseFee, Charged, Credited;
      burned := 0;
      ghost var w := Now(evm.stateManager.accountStack);
      var fromAccount := evm.Load(tx.sender);
      var error := Validate(evm.rules, fromAccount, tx, b);
      if error.Some? {
        return Err(error.value), 0;
      }
      AcceptableAffords(evm.rules, w, tx, b);
      SpentWithinLimit(tx, b, x);
      CanStillPay(evm.rules, w, tx, b);
      BuyGas(tx, b, fromAccount);
      var thrown, exception;
      thrown, exception, burned := evm.RunCall(TheMessage(tx, x));
      var totalGasSpent := TotalGasSpent(tx, b, x);
      Fewer(totalGasSpent, tx.gasLimit, GasPrice(tx, b));
      var result := PayOut(tx, b, totalGasSpent);
      r := Ok(result);
    }

    /**
      * runTx: a rejected transaction changes nothing. An accepted one pays for at least the floor and at
      * most its gas limit, and the balances lose exactly the burned base fee, the blobs and what was burned.
      */
    method RunTx(tx: Tx, b: Block, x: Execution) returns (r: Result<TxResult, TxError>, ghost burned: nat)
      requires evm.Valid() && Reasonable(tx, b, x)
      modifies evm.stateManager
      ensures evm.Valid() && SameBelow(evm.stateManager.accountStack, old(evm.stateManager.accountStack))
      ensures r.Ok? <==>
              && Admitted(tx, b)
              && Acceptable(evm.rules, Get(evm.rules, Now(old(evm.stateManager.accountStack)), tx.sender), tx, b)
      ensures r.Ok? ==> tx.gasLimit <= b.gasLimit && (tx.typed && b.eip2718 && tx.feeMarket ==> b.eip1559)
      ensures r == Err(AboveBlockGasLimit) <==> tx.gasLimit > b.gasLimit
      ensures r == Err(AccessListsNotActive) <==> tx.gasLimit <= b.gasLimit && tx.typed && b.eip2718 && !b.eip2930
      ensures r == Err(FeeMarketNotActive) <==>
              tx.gasLimit <= b.gasLimit && tx.typed && b.eip2718 && b.eip2930 && tx.feeMarket && !b.eip1559
      ensures r.Err? ==> evm.stateManager.accountStack == old(evm.stateManager.accountStack)
      ensures r.Ok? ==>
                var w := Now(old(evm.stateManager.accountStack));
                && Floor(tx, b) <= r.value.totalGasSpent <= tx.gasLimit
                && r.value.totalGasSpent == GasSpent(tx, b, x)
                && PaysBaseFee(tx, b) && Affords(evm.rules, w, tx, b)
                && r.value.amountSpent == r.value.totalGasSpent * GasPrice(tx, b)
                && r.value.minerValue == MinerValue(tx, b, r.value.totalGasSpent)
                && Now(evm.stateManager.accountStack) == Settled(evm.rules, w, tx, b, x)
                && Total(Now(evm.stateManager.accountStack)) + Gone(tx, b, x) + burned == Total(w)
                && (BurnFreeMessage(TheMessage(tx, x)) ==> burned == 0)
    {
      hide RunMessage, Total, Settled, Acceptable, BurnFreeMessage, Gone, GasPrice, MinerValue, Get, BlobCost, GasSpent,
        Affords, PaysBaseFee;
      if b.gasLimit < tx.gasLimit {
        return Err(AboveBlockGasLimit), 0;
      }
      ghost var was := evm.stateManager.accountStack;
      evm.stateManager.CheckpointSync();
      var error := CheckType(tx, b);
      if error.Some? {
        CloseTx(false, was);
        return Err(error.value), 0;
      }
      r, burned := RunInside(tx, b, x);
      CloseTx(r.Ok?, was);
      if r.Ok? {
        SettlementConserves(evm.rules, Now(was), tx, b, x);
      }
    }

    /** What the hardfork must have for a typed transaction. */
    static method CheckType(tx: Tx, b: Block) returns (error: Option<TxError>)
      ensures error == Some(AccessListsNotActive) <==> tx.typed && b.eip2718 && !b.eip2930
      ensures error == Some(FeeMarketNotActive) <==>
              tx.typed && b.eip2718 && b.eip2930 && tx.feeMarket && !b.eip1559
      ensures error.Some? ==> error.value.AccessListsNotActive? || error.value.FeeMarketNotActive?
    {
      error := None;
      if tx.typed && b.eip2718 {
        if !b.eip2930 {
          return Some(AccessListsNotActive);
        }
        if tx.feeMarket && !b.eip1559 {
          return Some(FeeMarketNotActive);
        }
      }
    }

    /** The outer checkpoint is committed, or reverted on any error. */
    method CloseTx(ok: bool, ghost was: seq<World>)
      requires evm.Valid() && was != [] && SameBelow(evm.stateManager.accountStack, CopyStack.Checkpoint(was))
      modifies evm.stateManager
      ensures evm.Valid() && SameBelow(evm.stateManager.accountStack, was)
      ensures if ok then Now(evm.stateManager.accountStack) == Now(old(evm.stateManager.accountStack))
              else evm.stateManager.accountStack == was
    {
      CopyStack.AfterCheckpoint(was, evm.stateManager.accountStack);
      if ok {
        evm.stateManager.Commit();
      } else {
        evm.stateManager.Revert();
      }
    }
  }
}
