/** The deployed contract: an object holding the contract's storage, whose entry
    points update that storage in place. Each entry point is proved to produce the
    outcome and the storage that the matching function of `Registry` describes, so
    the properties proved there hold of every invocation of the contract. */
module Contract {

  import opened Wrappers
  import opened Errors
  import opened Validation
  import opened Registry

  class NameService {
    /** The configuration singleton; absent until instantiation. */
    var config: Option<Config>
    /** The record store, keyed by the bytes of a name. */
    var records: map<Key, NameRecord>

    /** The storage as a value. */
    function Storage(): State
      reads this
    {
      State(config, records)
    }

    /** A freshly deployed contract: nothing stored yet. */
    constructor ()
      ensures Storage() == Empty
    {
      config := None;
      records := map[];
    }

    method Instantiate(msg: InstantiateMsg) returns (outcome: Outcome)
      modifies this
      ensures Step(outcome, Storage()) == Registry.Instantiate(old(Storage()), msg)
    {
      var configState := Config(msg.purchasePrice, msg.transferPrice);
      config := Some(configState);
      outcome := Pass;
    }

    method Execute(info: MessageInfo, msg: ExecuteMsg, pay: PaymentCheck, validate: AddrValidator)
      returns (outcome: Outcome)
      modifies this
      ensures Step(outcome, Storage()) == Registry.Execute(old(Storage()), info, msg, pay, validate)
    {
      match msg
      case Register(name) =>
        outcome := ExecuteRegister(info, name, pay);
      case Transfer(name, to) =>
        outcome := ExecuteTransfer(info, name, to, pay, validate);
    }

    method ExecuteRegister(info: MessageInfo, name: string, pay: PaymentCheck) returns (outcome: Outcome)
      modifies this
      ensures Step(outcome, Storage()) == RegisterName(old(Storage()), info, name, pay)
    {
      outcome := ValidateName(name);
      if outcome.Fail? {
        return;
      }
      if config.None? {
        return Fail(Std(NotFound(ConfigKind)));
      }
      var configState := config.value;
      outcome := pay(info.funds, configState.purchasePrice);
      if outcome.Fail? {
        return;
      }
      var key := KeyOf(name);
      var record := NameRecord(info.sender);
      if MayLoad(records, key).Some? {
        return Fail(NameTaken(name));
      }
      records := records[key := record];
      outcome := Pass;
    }

    method ExecuteTransfer(info: MessageInfo, name: string, to: string,
                           pay: PaymentCheck, validate: AddrValidator) returns (outcome: Outcome)
      modifies this
      ensures Step(outcome, Storage()) == TransferName(old(Storage()), info, name, to, pay, validate)
    {
      if config.None? {
        return Fail(Std(NotFound(ConfigKind)));
      }
      var configState := config.value;
      outcome := pay(info.funds, configState.transferPrice);
      if outcome.Fail? {
        return;
      }
      var validated := validate(to);
      if validated.Err? {
        return Fail(Std(validated.error));
      }
      var newOwner := validated.value;
      var key := KeyOf(name);
      match MayLoad(records, key)
      case None =>
        outcome := Fail(NameNotExists(name));
      case Some(record) =>
        if info.sender != record.owner {
          return Fail(Unauthorized);
        }
        records := records[key := record.(owner := newOwner)];
        outcome := Pass;
    }

    /** Reads the configuration or the owner of a name; changes nothing. */
    method Query(msg: QueryMsg) returns (response: Result<QueryResponse, StdError>)
      ensures response == Registry.Query(Storage(), msg)
    {
      match msg
      case ResolveRecord(name) =>
        var address := QueryResolver(name);
        response := Ok(ResolveRecordResponse(address));
      case QueryConfig =>
        if config.None? {
          response := Err(NotFound(ConfigKind));
        } else {
          response := Ok(ConfigResponse(config.value));
        }
    }

    method QueryResolver(name: string) returns (address: Option<string>)
      ensures address == Resolve(Storage(), name)
    {
      var key := KeyOf(name);
      match MayLoad(records, key)
      case Some(record) =>
        address := Some(record.owner.text);
      case None =>
        address := None;
    }
  }
}
