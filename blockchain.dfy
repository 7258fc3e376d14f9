/** The ledger side of `BlockchainService`: the registration of a property
    document on the land contract, the estimate of its cost, and the funds
    gate run before it.

    The node, the wallet and the contract are given as functions of their
    requests (`Ledger`); every operation returns, with its result, the
    sequence of remote calls it issued. Amounts are in wei, unbounded. */
module Blockchain {
  import opened Text
  import opened Outcomes

  /** What an ethers call throws, read through the optional fields the
      service inspects. */
  datatype EthersError = EthersError(code: Option<string>, shortMessage: Option<string>, message: Option<string>)

  /** The outcome of a call whose failure is classified by its fields. */
  datatype Attempt<T> = Done(value: T) | Rejected(error: EthersError)

  /** The fee data of the node; `None` is a field left `null`. */
  datatype FeeData = FeeData(gasPrice: Option<nat>, maxFeePerGas: Option<nat>)

  /** A log as `parseLog` sees it: the call throws, finds no event
      (`null`), or decodes an event. `tokenId` is `None` when the event has
      no argument of that name. */
  datatype ParsedLog = ParseThrows | NoEvent | Parsed(name: string, tokenId: Option<int>)

  /** A raw event log of a receipt. */
  datatype Log = Log(topics: seq<string>, data: string)

  /** A mined receipt; `None` is a status left `null`. */
  datatype Receipt = Receipt(status: Option<int>, logs: seq<Log>)

  /** The remote side: the wallet address and balance, the formatting of
      wei as ether, and the contract's calls. */
  datatype Ledger = Ledger(
    address: string,
    balance: Outcome<nat>,
    formatEther: nat -> string,
    estimateGas: string -> Attempt<nat>,
    feeData: Attempt<FeeData>,
    isCidUsed: string -> Outcome<bool>,
    sendRegister: string -> Outcome<string>,
    waitReceipt: string -> Outcome<Receipt>,
    parseLog: Log -> ParsedLog,
    nextTokenId: Outcome<int>)

  /** A remote call issued by the service. */
  datatype Call =
    | GetBalance
    | EstimateGas(cid: string)
    | GetFeeData
    | IsCidUsed(cid: string)
    | SendRegister(cid: string)
    | WaitReceipt(hash: string)
    | GetNextTokenId

  datatype CostEstimate = CostEstimate(gasLimit: nat, gasPriceWei: nat, totalCostWei: nat, totalCostEth: string)

  datatype Registration = Registration(hash: string, tokenId: int)

  const RegisterFailurePrefix := "Failed to register land on blockchain: "
  const BalanceFailure := "Failed to fetch wallet balance"
  const EstimateFailure := "Failed to estimate transaction gas"
  const CidUsedMessage := "CID is already used"
  const TransactionFailedMessage := "Transaction failed"
  const RegisteredEventName := "PropertyRegistered"
  const RevertMarker := "execution reverted"

  function InsufficientBalanceMessage(address: string, balanceEth: string): string
  {
    "Insufficient balance in wallet " + address + ". Current balance: " + balanceEth
    + " ETH. Please add funds to complete the transaction."
  }

  // ---------------------------------------------------------------------------
  // Balance and cost

  /** `getWalletBalanceEth`: the balance formatted as ether. */
  function WalletBalanceEth(ledger: Ledger): (r: (Outcome<string>, seq<Call>))
    ensures r.1 == [GetBalance]
    ensures r.0.Ok? <==> ledger.balance.Ok?
    ensures r.0.Ok? ==> r.0.value == ledger.formatEther(ledger.balance.value)
    ensures r.0.Fail? ==> r.0.error == Error(BalanceFailure)
  {
    match ledger.balance
    case Ok(wei) => (Ok(ledger.formatEther(wei)), [GetBalance])
    case Fail(_) => (Fail(Error(BalanceFailure)), [GetBalance])
  }

  /** `feeData.gasPrice ?? feeData.maxFeePerGas ?? 0n`. */
  function GasPriceOf(fees: FeeData): nat
  {
    if fees.gasPrice.Some? then fees.gasPrice.value
    else if fees.maxFeePerGas.Some? then fees.maxFeePerGas.value
    else 0
  }

  /** The gas price falls back only on an absent field (`??`, not `||`): a
      gas price of zero is used as it is, the fee cap is not consulted once
      a gas price is present, and the price is zero only when the field
      that decides it is zero or both are absent. */
  lemma GasPriceFallsBackOnlyWhenAbsent(fees: FeeData)
    ensures fees.gasPrice == Some(0) ==> GasPriceOf(fees) == 0
    ensures fees.gasPrice.Some? ==>
      forall cap: Option<nat> :: GasPriceOf(fees.(maxFeePerGas := cap)) == GasPriceOf(fees)
    ensures GasPriceOf(fees) == 0 <==>
      || fees.gasPrice == Some(0)
      || (fees.gasPrice.None? && (fees.maxFeePerGas.None? || fees.maxFeePerGas == Some(0)))
  {
  }

  /** The rule by which an estimation failure is read as a contract revert:
      code `CALL_EXCEPTION` and "execution reverted" in the short message or
      in the message. */
  predicate IsRevert(e: EthersError)
  {
    && e.code == Some("CALL_EXCEPTION")
    && ((e.shortMessage.Some? && Includes(e.shortMessage.value, RevertMarker))
        || (e.message.Some? && Includes(e.message.value, RevertMarker)))
  }

  /** The `catch` block of `estimateRegisterLandCost`: a revert is reported
      as a shortfall of funds, quoting a fresh balance read (whose own
      failure then propagates); anything else as a failed estimate. */
  function ClassifyEstimateFailure(e: EthersError, ledger: Ledger): (r: (Thrown, seq<Call>))
    ensures IsRevert(e) ==> r.1 == [GetBalance]
    ensures !IsRevert(e) ==> r == (Error(EstimateFailure), [])
    ensures IsRevert(e) && ledger.balance.Ok? ==>
      r.0 == Error(InsufficientBalanceMessage(ledger.address, ledger.formatEther(ledger.balance.value)))
    ensures IsRevert(e) && ledger.balance.Fail? ==> r.0 == Error(BalanceFailure)
  {
    if IsRevert(e) then
      var balance := WalletBalanceEth(ledger);
      match balance.0
      case Ok(balanceEth) => (Error(InsufficientBalanceMessage(ledger.address, balanceEth)), balance.1)
      case Fail(thrown) => (thrown, balance.1)
    else
      (Error(EstimateFailure), [])
  }

  /** `estimateRegisterLandCost`: the gas limit of a registration times the
      selected gas price. */
  function EstimateRegisterLandCost(cid: string, ledger: Ledger): (r: (Outcome<CostEstimate>, seq<Call>))
    ensures |r.1| >= 1 && r.1[0] == EstimateGas(cid)
    ensures r.0.Ok? <==> ledger.estimateGas(cid).Done? && ledger.feeData.Done?
    ensures r.0.Ok? ==>
      var gasLimit := ledger.estimateGas(cid).value;
      var gasPrice := GasPriceOf(ledger.feeData.value);
      && r.0.value == CostEstimate(gasLimit, gasPrice, gasLimit * gasPrice, ledger.formatEther(gasLimit * gasPrice))
      && r.1 == [EstimateGas(cid), GetFeeData]
    ensures ledger.estimateGas(cid).Rejected? ==>
      r == (Fail(ClassifyEstimateFailure(ledger.estimateGas(cid).error, ledger).0),
            [EstimateGas(cid)] + ClassifyEstimateFailure(ledger.estimateGas(cid).error, ledger).1)
    ensures ledger.estimateGas(cid).Done? && ledger.feeData.Rejected? ==>
      r == (Fail(ClassifyEstimateFailure(ledger.feeData.error, ledger).0),
            [EstimateGas(cid), GetFeeData] + ClassifyEstimateFailure(ledger.feeData.error, ledger).1)
  {
    match ledger.estimateGas(cid)
    case Rejected(e) =>
      var failure := ClassifyEstimateFailure(e, ledger);
      (Fail(failure.0), [EstimateGas(cid)] + failure.1)
    case Done(gasLimit) =>
      match ledger.feeData
      case Rejected(e) =>
        var failure := ClassifyEstimateFailure(e, ledger);
        (Fail(failure.0), [EstimateGas(cid), GetFeeData] + failure.1)
      case Done(fees) =>
        var gasPriceWei := GasPriceOf(fees);
        var totalCostWei := gasLimit * gasPriceWei;
        (Ok(CostEstimate(gasLimit, gasPriceWei, totalCostWei, ledger.formatEther(totalCostWei))),
         [EstimateGas(cid), GetFeeData])
  }

  /** `ensureSufficientBalanceForRegisterLand`: both reads are started; a
      failed balance read is reported before a failed estimate; the funds
      suffice unless the balance is strictly below the cost. The balance is
      compared in wei, as read. */
  function EnsureSufficientBalance(cid: string, ledger: Ledger): (r: (Outcome<()>, seq<Call>))
    ensures r.0.Ok? <==>
      && ledger.balance.Ok?
      && EstimateRegisterLandCost(cid, ledger).0.Ok?
      && ledger.balance.value >= EstimateRegisterLandCost(cid, ledger).0.value.totalCostWei
    ensures r.0.Fail? ==> r.0.error.Error?
    ensures r.1 == [GetBalance] + EstimateRegisterLandCost(cid, ledger).1
  {
    var balance := WalletBalanceEth(ledger);
    var estimate := EstimateRegisterLandCost(cid, ledger);
    var calls := balance.1 + estimate.1;
    if balance.0.Fail? then (Fail(balance.0.error), calls)
    else if estimate.0.Fail? then
      (Fail(estimate.0.error), calls)
    else
      var balanceWei := ledger.balance.value;
      if balanceWei < estimate.0.value.totalCostWei then
        (Fail(Error(InsufficientBalanceMessage(ledger.address, balance.0.value))), calls)
      else
        (Ok(()), calls)
  }

  /** The gate only reads: it queries the balance, the gas estimate and the
      fee data, and sends nothing. */
  lemma GateOnlyReads(cid: string, ledger: Ledger)
    ensures forall c :: c in EnsureSufficientBalance(cid, ledger).1 ==>
      c == GetBalance || c == EstimateGas(cid) || c == GetFeeData
  {
  }

  /** A shortfall, whether found by comparing amounts or by a reverted
      estimate, is reported with the same message, quoting the balance. */
  lemma ShortfallMessage(cid: string, ledger: Ledger)
    requires ledger.balance.Ok?
    requires var estimate := EstimateRegisterLandCost(cid, ledger).0;
      || (estimate.Ok? && ledger.balance.value < estimate.value.totalCostWei)
      || (ledger.estimateGas(cid).Rejected? && IsRevert(ledger.estimateGas(cid).error))
    ensures EnsureSufficientBalance(cid, ledger).0
         == Fail(Error(InsufficientBalanceMessage(ledger.address, ledger.formatEther(ledger.balance.value))))
  {
  }

  /** Funds equal to the cost suffice. */
  lemma ExactFundsSuffice(cid: string, ledger: Ledger)
    requires ledger.balance.Ok? && EstimateRegisterLandCost(cid, ledger).0.Ok?
    requires ledger.balance.value == EstimateRegisterLandCost(cid, ledger).0.value.totalCostWei
    ensures EnsureSufficientBalance(cid, ledger).0.Ok?
  {
  }

  /** The gate is monotone in the balance: a wallet that passes still passes
      with more funds. */
  lemma MoreFundsStillSuffice(cid: string, ledger: Ledger, more: nat)
    requires EnsureSufficientBalance(cid, ledger).0.Ok?
    requires more >= ledger.balance.value
    ensures EnsureSufficientBalance(cid, ledger.(balance := Ok(more))).0.Ok?
  {
    var richer := ledger.(balance := Ok(more));
    assert EstimateRegisterLandCost(cid, richer).0 == EstimateRegisterLandCost(cid, ledger).0;
  }

  /** With a gas price of zero the cost is zero, and a readable balance
      always passes. */
  lemma FreeGasAlwaysPasses(cid: string, ledger: Ledger)
    requires ledger.balance.Ok? && ledger.estimateGas(cid).Done? && ledger.feeData.Done?
    requires GasPriceOf(ledger.feeData.value) == 0
    ensures EnsureSufficientBalance(cid, ledger).0.Ok?
  {
  }

  // ---------------------------------------------------------------------------
  // Registration

  /** `parsed?.name === "PropertyRegistered"`, a throwing parse counting as
      no match. */
  predicate IsRegisteredEvent(p: ParsedLog)
  {
    p.Parsed? && p.name == RegisteredEventName
  }

  /** `receipt.logs.find(...)`: the position of the first log that parses as
      the registration event. */
  function FindRegisteredEvent(logs: seq<Log>, parse: Log -> ParsedLog): (k: Option<nat>)
    ensures k.Some? ==>
      && k.value < |logs| && IsRegisteredEvent(parse(logs[k.value]))
      && forall j :: 0 <= j < k.value ==> !IsRegisteredEvent(parse(logs[j]))
    ensures k.None? ==> forall j :: 0 <= j < |logs| ==> !IsRegisteredEvent(parse(logs[j]))
  {
    if |logs| == 0 then None
    else if IsRegisteredEvent(parse(logs[0])) then Some(0)
    else match FindRegisteredEvent(logs[1..], parse)
      case None => None
      case Some(k) => Some(k + 1)
  }

  /** The token id the receipt itself gives: that of the first registration
      event, when it carries one. `None` calls for the counter fallback. */
  function EventTokenId(logs: seq<Log>, parse: Log -> ParsedLog): Option<int>
  {
    match FindRegisteredEvent(logs, parse)
    case None => None
    case Some(k) => parse(logs[k]).tokenId
  }

  /** A log whose parsing throws is skipped, not an error. */
  lemma ThrowingLogIsSkipped(log: Log, logs: seq<Log>, parse: Log -> ParsedLog)
    requires parse(log) == ParseThrows
    ensures EventTokenId([log] + logs, parse) == EventTokenId(logs, parse)
  {
    assert ([log] + logs)[1..] == logs;
  }

  /** Only the first registration event is read: when it has no token id
      the counter is used, even if a later event carries one. */
  lemma FirstEventDecides(logs: seq<Log>, parse: Log -> ParsedLog, i: nat, j: nat)
    requires i < j < |logs|
    requires parse(logs[i]) == Parsed(RegisteredEventName, None)
    requires forall m :: 0 <= m < i ==> !IsRegisteredEvent(parse(logs[m]))
    requires parse(logs[j]).Parsed? && parse(logs[j]).tokenId.Some?
    ensures EventTokenId(logs, parse) == None
  {
    FirstEventAt(logs, parse, i);
  }

  /** A registration event preceded by none is the one `find` returns. */
  lemma {:induction false} FirstEventAt(logs: seq<Log>, parse: Log -> ParsedLog, i: nat)
    requires i < |logs| && IsRegisteredEvent(parse(logs[i]))
    requires forall m :: 0 <= m < i ==> !IsRegisteredEvent(parse(logs[m]))
    ensures FindRegisteredEvent(logs, parse) == Some(i)
  {
    if i > 0 {
      FirstEventAt(logs[1..], parse, i - 1);
    }
  }

  /** The registration a ledger grants: the CID is unused, the transaction
      is sent and mined with status 1, and the token id is the one of the
      first registration event or, failing that, the counter minus one. */
  function RegistrationOf(cid: string, ledger: Ledger): Option<Registration>
  {
    if ledger.isCidUsed(cid) != Ok(false) then None
    else match ledger.sendRegister(cid)
      case Fail(_) => None
      case Ok(hash) =>
        match ledger.waitReceipt(hash)
        case Fail(_) => None
        case Ok(receipt) =>
          if receipt.status != Some(1) then None
          else match EventTokenId(receipt.logs, ledger.parseLog)
            case Some(tokenId) => Some(Registration(hash, tokenId))
            case None =>
              if ledger.nextTokenId.Ok? then Some(Registration(hash, ledger.nextTokenId.value - 1)) else None
  }

  /** The token id of the first registration event wins over the counter,
      which is then not consulted: it may even be unreadable. */
  lemma EventTokenIdWins(cid: string, ledger: Ledger, hash: string, receipt: Receipt, tokenId: int)
    requires ledger.isCidUsed(cid) == Ok(false)
    requires ledger.sendRegister(cid) == Ok(hash) && ledger.waitReceipt(hash) == Ok(receipt)
    requires receipt.status == Some(1)
    requires EventTokenId(receipt.logs, ledger.parseLog) == Some(tokenId)
    ensures RegistrationOf(cid, ledger) == Some(Registration(hash, tokenId))
    ensures RegistrationOf(cid, ledger.(nextTokenId := Fail(NonError))) == Some(Registration(hash, tokenId))
  {
  }

  /** Without a token id in the receipt, the token id is the counter minus
      one, read as the last call; an unreadable counter fails the
      registration under the prefix after that read. */
  lemma CounterFallback(cid: string, ledger: Ledger, hash: string, receipt: Receipt)
    requires ledger.isCidUsed(cid) == Ok(false)
    requires ledger.sendRegister(cid) == Ok(hash) && ledger.waitReceipt(hash) == Ok(receipt)
    requires receipt.status == Some(1)
    requires EventTokenId(receipt.logs, ledger.parseLog).None?
    ensures RegisterLandRun(cid, ledger).1 == [IsCidUsed(cid), SendRegister(cid), WaitReceipt(hash), GetNextTokenId]
    ensures ledger.nextTokenId.Ok? ==>
      RegisterLandRun(cid, ledger).0 == Ok(Registration(hash, ledger.nextTokenId.value - 1))
    ensures ledger.nextTokenId.Fail? ==>
      && RegisterLandRun(cid, ledger).0.Fail?
      && RegisterLandRun(cid, ledger).0.error.Error?
      && RegisterFailurePrefix <= RegisterLandRun(cid, ledger).0.error.message
  {
  }

  /** A CID already on the ledger is never registered again, whatever the
      rest of the ledger does. */
  lemma UsedCidNeverRegistered(cid: string, ledger: Ledger)
    requires ledger.isCidUsed(cid) == Ok(true)
    ensures RegistrationOf(cid, ledger).None?
  {
  }

  /** `registerLand` as a value: the outcome and the calls made, in order.
      Every failure is rethrown under one prefix. */
  function RegisterLandRun(cid: string, ledger: Ledger): (Outcome<Registration>, seq<Call>)
  {
    match ledger.isCidUsed(cid)
    case Fail(e) => (Fail(Error(RegisterFailurePrefix + MessageOr(e, "Unknown error"))), [IsCidUsed(cid)])
    case Ok(used) =>
      if used then (Fail(Error(RegisterFailurePrefix + CidUsedMessage)), [IsCidUsed(cid)])
      else match ledger.sendRegister(cid)
        case Fail(e) => (Fail(Error(RegisterFailurePrefix + MessageOr(e, "Unknown error"))), [IsCidUsed(cid), SendRegister(cid)])
        case Ok(hash) =>
          var sent := [IsCidUsed(cid), SendRegister(cid), WaitReceipt(hash)];
          match ledger.waitReceipt(hash)
          case Fail(e) => (Fail(Error(RegisterFailurePrefix + MessageOr(e, "Unknown error"))), sent)
          case Ok(receipt) =>
            if receipt.status != Some(1) then (Fail(Error(RegisterFailurePrefix + TransactionFailedMessage)), sent)
            else match EventTokenId(receipt.logs, ledger.parseLog)
              case Some(tokenId) => (Ok(Registration(hash, tokenId)), sent)
              case None =>
                match ledger.nextTokenId
                case Fail(e) => (Fail(Error(RegisterFailurePrefix + MessageOr(e, "Unknown error"))), sent + [GetNextTokenId])
                case Ok(next) => (Ok(Registration(hash, next - 1)), sent + [GetNextTokenId])
  }

  /** The calls of `registerLand`: the guard comes first, only this CID is
      queried and sent, the transaction is sent exactly when the CID is
      free, and the counter is read only after a mined transaction whose
      receipt names no token id. */
  lemma RegisterLandCalls(cid: string, ledger: Ledger)
    ensures var calls := RegisterLandRun(cid, ledger).1;
      && |calls| >= 1 && calls[0] == IsCidUsed(cid)
      && (forall c :: c in calls ==>
            c == IsCidUsed(cid) || c == SendRegister(cid) || c.WaitReceipt? || c == GetNextTokenId)
      && (SendRegister(cid) in calls <==> ledger.isCidUsed(cid) == Ok(false))
    ensures GetNextTokenId in RegisterLandRun(cid, ledger).1 ==>
      && ledger.isCidUsed(cid) == Ok(false)
      && ledger.sendRegister(cid).Ok?
      && ledger.waitReceipt(ledger.sendRegister(cid).value).Ok?
      && var receipt := ledger.waitReceipt(ledger.sendRegister(cid).value).value;
      && receipt.status == Some(1)
      && EventTokenId(receipt.logs, ledger.parseLog).None?
  {
  }

  /** The outcome of `registerLand`: a used CID is refused before anything
      is sent, a reverted transaction is reported as failed without reading
      the counter, every failure carries the prefix, and a success is
      exactly the registration the ledger grants. */
  lemma RegisterLandOutcome(cid: string, ledger: Ledger)
    ensures var (result, calls) := RegisterLandRun(cid, ledger);
      && (ledger.isCidUsed(cid) == Ok(true) ==>
            result == Fail(Error(RegisterFailurePrefix + CidUsedMessage)) && calls == [IsCidUsed(cid)])
      && (result.Fail? ==> result.error.Error? && RegisterFailurePrefix <= result.error.message)
      && (result.Ok? <==> RegistrationOf(cid, ledger).Some?)
      && (result.Ok? ==> result.value == RegistrationOf(cid, ledger).value)
    ensures (&& ledger.isCidUsed(cid) == Ok(false) && ledger.sendRegister(cid).Ok?
             && ledger.waitReceipt(ledger.sendRegister(cid).value).Ok?
             && ledger.waitReceipt(ledger.sendRegister(cid).value).value.status != Some(1)) ==>
      && RegisterLandRun(cid, ledger).0 == Fail(Error(RegisterFailurePrefix + TransactionFailedMessage))
      && GetNextTokenId !in RegisterLandRun(cid, ledger).1
    ensures RegisterLandRun(cid, ledger).0.Ok? ==>
      (GetNextTokenId in RegisterLandRun(cid, ledger).1 <==>
        EventTokenId(ledger.waitReceipt(ledger.sendRegister(cid).value).value.logs, ledger.parseLog).None?)
  {
  }

  /** `registerLand`, step by step: the uniqueness guard, the transaction,
      its receipt, and the recovery of the token id, whose fallback to the
      counter is written out in both branches of the event test. */
  method RegisterLand(cid: string, ledger: Ledger) returns (result: Outcome<Registration>, calls: seq<Call>)
    ensures result == RegisterLandRun(cid, ledger).0
    ensures calls == RegisterLandRun(cid, ledger).1
  {
    calls := [IsCidUsed(cid)];
    var isCidUsed := ledger.isCidUsed(cid);
    if isCidUsed.Fail? {
      result := Fail(Error(RegisterFailurePrefix + MessageOr(isCidUsed.error, "Unknown error")));
      return;
    }
    if isCidUsed.value {
      result := Fail(Error(RegisterFailurePrefix + CidUsedMessage));
      return;
    }
    calls := calls + [SendRegister(cid)];
    var tx := ledger.sendRegister(cid);
    if tx.Fail? {
      result := Fail(Error(RegisterFailurePrefix + MessageOr(tx.error, "Unknown error")));
      return;
    }
    calls := calls + [WaitReceipt(tx.value)];
    var receipt := ledger.waitReceipt(tx.value);
    if receipt.Fail? {
      result := Fail(Error(RegisterFailurePrefix + MessageOr(receipt.error, "Unknown error")));
      return;
    }
    if receipt.value.status != Some(1) {
      result := Fail(Error(RegisterFailurePrefix + TransactionFailedMessage));
      return;
    }
    var tokenId: int;
    var event := FindRegisteredEvent(receipt.value.logs, ledger.parseLog);
    if event.Some? {
      var parsed := ledger.parseLog(receipt.value.logs[event.value]);
      if parsed.tokenId.Some? {
        tokenId := parsed.tokenId.value;
      } else {
        calls := calls + [GetNextTokenId];
        var nextTokenId := ledger.nextTokenId;
        if nextTokenId.Fail? {
          result := Fail(Error(RegisterFailurePrefix + MessageOr(nextTokenId.error, "Unknown error")));
          return;
        }
        tokenId := nextTokenId.value - 1;
      }
    } else {
      calls := calls + [GetNextTokenId];
      var nextTokenId := ledger.nextTokenId;
      if nextTokenId.Fail? {
        result := Fail(Error(RegisterFailurePrefix + MessageOr(nextTokenId.error, "Unknown error")));
        return;
      }
      tokenId := nextTokenId.value - 1;
    }
    result := Ok(Registration(tx.value, tokenId));
  }
}
