/** The name registry as a state machine over its stored state: a configuration
    singleton and a map from the bytes of a name to the record of its owner.
    Each entry point is a function from the state before an invocation to its
    outcome and the state after it; an invocation that fails leaves the state as it
    was, because the host discards the writes of a failed invocation.

    The host's payment check and its address validation are parameters: the first
    inspects the funds sent against a configured price, the second turns a string
    into an address or refuses it. */
module Registry {

  import opened Wrappers
  import opened Errors
  import opened Utf8
  import opened Validation

  datatype Coin = Coin(denom: string, amount: nat)

  /** A host-validated account address. */
  datatype Addr = Addr(text: string)

  datatype Config = Config(purchasePrice: Option<Coin>, transferPrice: Option<Coin>)

  datatype NameRecord = NameRecord(owner: Addr)

  /** Who sent the message and which funds came with it. */
  datatype MessageInfo = MessageInfo(sender: Addr, funds: seq<Coin>)

  datatype InstantiateMsg = InstantiateMsg(purchasePrice: Option<Coin>, transferPrice: Option<Coin>)

  datatype ExecuteMsg =
    | Register(name: string)
    | Transfer(name: string, to: string)

  datatype QueryMsg =
    | ResolveRecord(name: string)
    | QueryConfig

  datatype QueryResponse =
    | ResolveRecordResponse(address: Option<string>)
    | ConfigResponse(config: Config)

  /** The host's check that the funds sent cover a price (no price: nothing to pay). */
  type PaymentCheck = (seq<Coin>, Option<Coin>) -> Outcome

  /** The host's address validation. */
  type AddrValidator = string -> Result<Addr, StdError>

  /** Storage keys are the UTF-8 bytes of a name. */
  type Key = seq<byte>

  /** The key of a name, as `name.as_bytes()`: as long as the name's byte length, and
      it determines the name. */
  function KeyOf(name: string): (k: Key)
    ensures |k| == ByteLength(name)
    ensures Decode(k) == Some(name)
  {
    DecodeEncode(name);
    Encode(name)
  }

  /** The kind a missing configuration is reported under. */
  const ConfigKind: string := "nameservice::state::Config"

  /** The contract's storage: the configuration, absent until instantiation, and the
      records by key. */
  datatype State = State(config: Option<Config>, records: map<Key, NameRecord>)

  /** Storage of a contract that has just been deployed. */
  const Empty: State := State(None, map[])

  /** An outcome with the state the invocation leaves behind. */
  datatype Step = Step(outcome: Outcome, state: State)

  function LoadConfig(s: State): (r: Result<Config, StdError>)
    ensures r.Ok? <==> s.config.Some?
    ensures r.Ok? ==> r.value == s.config.value
    ensures r.Err? ==> r.error == NotFound(ConfigKind)
  {
    match s.config
    case None => Err(NotFound(ConfigKind))
    case Some(c) => Ok(c)
  }

  /** Stores the two prices as given, without checking them; the records are left
      alone. */
  function Instantiate(s: State, msg: InstantiateMsg): (r: Step)
    ensures r.outcome == Pass
    ensures r.state.records == s.records
    ensures LoadConfig(r.state) == Ok(Config(msg.purchasePrice, msg.transferPrice))
  {
    Step(Pass, s.(config := Some(Config(msg.purchasePrice, msg.transferPrice))))
  }

  /** Registers `name` to the sender: validate the name, load the configuration, check
      payment of the purchase price, refuse a name that is taken, store the record. */
  function RegisterName(s: State, info: MessageInfo, name: string, pay: PaymentCheck): (r: Step)
    // a failed invocation leaves no trace, and the configuration never changes
    ensures r.outcome.Fail? ==> r.state == s
    ensures r.state.config == s.config
    // an invalid name is refused with its validation error, whatever the state or the funds
    ensures ValidateName(name).Fail? ==> r.outcome == ValidateName(name)
    // before instantiation, a valid name is refused because the configuration is missing
    ensures IsValidName(name) && s.config.None? ==> r.outcome == Fail(Std(NotFound(ConfigKind)))
    // a valid name whose payment check fails is refused with that check's error,
    // before the record store is consulted
    ensures IsValidName(name) && s.config.Some? && pay(info.funds, s.config.value.purchasePrice).Fail? ==>
              r.outcome == pay(info.funds, s.config.value.purchasePrice)
    // a valid name that is paid for is refused exactly when it is taken
    ensures IsValidName(name) && s.config.Some? && pay(info.funds, s.config.value.purchasePrice) == Pass ==>
              (r.outcome == Pass <==> KeyOf(name) !in s.records) &&
              (KeyOf(name) in s.records ==> r.outcome == Fail(NameTaken(name)))
    // success needs all three checks to pass
    ensures r.outcome == Pass ==>
              && IsValidName(name)
              && s.config.Some? && pay(info.funds, s.config.value.purchasePrice) == Pass
              && KeyOf(name) !in s.records
    // a registration only adds the new record: no record is overwritten or removed
    ensures r.outcome == Pass ==>
              && r.state.records.Keys == s.records.Keys + {KeyOf(name)}
              && r.state.records[KeyOf(name)] == NameRecord(info.sender)
              && forall k :: k in s.records ==> r.state.records[k] == s.records[k]
  {
    match ValidateName(name)
    case Fail(e) => Step(Fail(e), s)
    case Pass =>
      match LoadConfig(s)
      case Err(e) => Step(Fail(Std(e)), s)
      case Ok(config) =>
        match pay(info.funds, config.purchasePrice)
        case Fail(e) => Step(Fail(e), s)
        case Pass =>
          var key := KeyOf(name);
          var record := NameRecord(info.sender);
          if MayLoad(s.records, key).Some? then Step(Fail(NameTaken(name)), s)
          else Step(Pass, s.(records := s.records[key := record]))
  }

  /** Transfers `name` to the address `to`: load the configuration, check payment of
      the transfer price, validate the new owner's address, then read, check and
      rewrite the record in one update. The name itself is not validated again. */
  function TransferName(s: State, info: MessageInfo, name: string, to: string,
                        pay: PaymentCheck, validate: AddrValidator): (r: Step)
    ensures r.outcome.Fail? ==> r.state == s
    ensures r.state.config == s.config
    // a transfer never adds or removes a record, and touches no other record
    ensures r.state.records.Keys == s.records.Keys
    ensures forall k :: k in s.records && k != KeyOf(name) ==> r.state.records[k] == s.records[k]
    // the configuration and the payment are checked first, then the address
    ensures s.config.None? ==> r.outcome == Fail(Std(NotFound(ConfigKind)))
    ensures s.config.Some? && pay(info.funds, s.config.value.transferPrice).Fail? ==>
              r.outcome == pay(info.funds, s.config.value.transferPrice)
    ensures s.config.Some? && pay(info.funds, s.config.value.transferPrice) == Pass && validate(to).Err? ==>
              r.outcome == Fail(Std(validate(to).error))
    // once those pass, the record decides: missing, owned by someone else, or owned by the sender
    ensures s.config.Some? && pay(info.funds, s.config.value.transferPrice) == Pass && validate(to).Ok? ==>
              && (KeyOf(name) !in s.records ==> r.outcome == Fail(NameNotExists(name)))
              && (KeyOf(name) in s.records && s.records[KeyOf(name)].owner != info.sender ==>
                    r.outcome == Fail(Unauthorized))
              && (KeyOf(name) in s.records && s.records[KeyOf(name)].owner == info.sender ==>
                    r.outcome == Pass)
    ensures r.outcome == Pass ==>
              && s.config.Some? && pay(info.funds, s.config.value.transferPrice) == Pass
              && validate(to).Ok?
              && KeyOf(name) in s.records && s.records[KeyOf(name)].owner == info.sender
              && r.state.records[KeyOf(name)].owner == validate(to).value
  {
    match LoadConfig(s)
    case Err(e) => Step(Fail(Std(e)), s)
    case Ok(config) =>
      match pay(info.funds, config.transferPrice)
      case Fail(e) => Step(Fail(e), s)
      case Pass =>
        match validate(to)
        case Err(e) => Step(Fail(Std(e)), s)
        case Ok(newOwner) =>
          var key := KeyOf(name);
          match UpdateOwner(s.records, key, info.sender, newOwner, name)
          case Err(e) => Step(Fail(e), s)
          case Ok(records) => Step(Pass, s.(records := records))
  }

  /** The read-check-modify-write of a transfer on the record store. */
  function UpdateOwner(records: map<Key, NameRecord>, key: Key, sender: Addr, newOwner: Addr,
                       name: string): (r: Result<map<Key, NameRecord>, ContractError>)
    ensures key !in records <==> r == Err(NameNotExists(name))
    ensures key in records && records[key].owner != sender <==> r == Err(Unauthorized)
    ensures key in records && records[key].owner == sender <==> r.Ok?
    ensures r.Ok? ==> r.value.Keys == records.Keys && r.value[key] == NameRecord(newOwner)
    ensures r.Ok? ==> forall k :: k in records && k != key ==> r.value[k] == records[k]
  {
    match MayLoad(records, key)
    case Some(record) =>
      if sender != record.owner then Err(Unauthorized)
      else Ok(records[key := record.(owner := newOwner)])
    case None =>
      Err(NameNotExists(name))
  }

  /** The record stored under `key`, if any. */
  function MayLoad(records: map<Key, NameRecord>, key: Key): (r: Option<NameRecord>)
    ensures r.Some? <==> key in records
    ensures r.Some? ==> r.value == records[key]
  {
    if key in records then Some(records[key]) else None
  }

  /** The owner's address of `name`, if the name has a record. */
  function Resolve(s: State, name: string): (r: Option<string>)
    ensures r.Some? <==> KeyOf(name) in s.records
    ensures r.Some? ==> r.value == s.records[KeyOf(name)].owner.text
  {
    match MayLoad(s.records, KeyOf(name))
    case Some(record) => Some(record.owner.text)
    case None => None
  }

  /** Dispatches an execute message to registration or transfer. */
  function Execute(s: State, info: MessageInfo, msg: ExecuteMsg,
                   pay: PaymentCheck, validate: AddrValidator): (r: Step)
    ensures r.outcome.Fail? ==> r.state == s
    ensures r.state.config == s.config
    // records are never removed; a new one appears only by registering its name to the sender
    ensures s.records.Keys <= r.state.records.Keys
    ensures forall k :: k in r.state.records && k !in s.records ==>
              msg.Register? && k == KeyOf(msg.name) && r.state.records[k].owner == info.sender
    // an existing record changes only by a transfer of that name sent by its owner
    ensures forall k :: k in s.records && r.state.records[k] != s.records[k] ==>
              msg.Transfer? && k == KeyOf(msg.name) && s.records[k].owner == info.sender
  {
    match msg
    case Register(name) => RegisterName(s, info, name, pay)
    case Transfer(name, to) => TransferName(s, info, name, to, pay, validate)
  }

  /** Answers a query from the stored state. */
  function Query(s: State, msg: QueryMsg): (r: Result<QueryResponse, StdError>)
    // only the configuration query can fail, and only before instantiation
    ensures r.Err? <==> msg.QueryConfig? && s.config.None?
    ensures r.Err? ==> r.error == NotFound(ConfigKind)
    ensures msg.ResolveRecord? ==>
              r.Ok? && r.value.ResolveRecordResponse? &&
              (r.value.address.Some? <==> KeyOf(msg.name) in s.records) &&
              (r.value.address.Some? ==> r.value.address.value == s.records[KeyOf(msg.name)].owner.text)
    ensures msg.QueryConfig? && s.config.Some? ==> r == Ok(ConfigResponse(s.config.value))
  {
    match msg
    case ResolveRecord(name) => Ok(ResolveRecordResponse(Resolve(s, name)))
    case QueryConfig =>
      match LoadConfig(s)
      case Err(e) => Err(e)
      case Ok(config) => Ok(ConfigResponse(config))
  }

  // ---------------------------------------------------------------------------
  // Properties relating several invocations

  /** The configuration query returns the prices given at instantiation. */
  lemma InstantiateThenQueryConfig(s: State, msg: InstantiateMsg)
    ensures Query(Instantiate(s, msg).state, QueryConfig) ==
              Ok(ConfigResponse(Config(msg.purchasePrice, msg.transferPrice)))
  {
  }

  /** After a registration, the name resolves to the sender. */
  lemma RegisterThenResolve(s: State, info: MessageInfo, name: string, pay: PaymentCheck)
    requires RegisterName(s, info, name, pay).outcome == Pass
    ensures Resolve(RegisterName(s, info, name, pay).state, name) == Some(info.sender.text)
  {
  }

  /** Distinct names have distinct storage keys. */
  lemma DistinctKeys(a: string, b: string)
    requires a != b
    ensures KeyOf(a) != KeyOf(b)
  {
    if KeyOf(a) == KeyOf(b) {
      EncodeInjective(a, b);
    }
  }

  /** Registering one name does not change what any other name resolves to. */
  lemma RegisterKeepsOtherNames(s: State, info: MessageInfo, name: string, other: string,
                                pay: PaymentCheck)
    requires other != name
    ensures Resolve(RegisterName(s, info, name, pay).state, other) == Resolve(s, other)
  {
    DistinctKeys(name, other);
  }

  /** Once registered, a name stays taken: a second registration, by anyone, fails,
      and with NameTaken when it is paid for. */
  lemma RegisterTwiceIsTaken(s: State, info: MessageInfo, info2: MessageInfo, name: string,
                             pay: PaymentCheck)
    requires RegisterName(s, info, name, pay).outcome == Pass
    ensures var s' := RegisterName(s, info, name, pay).state;
            && RegisterName(s', info2, name, pay).outcome.Fail?
            && RegisterName(s', info2, name, pay).state == s'
            && (pay(info2.funds, s.config.value.purchasePrice) == Pass ==>
                  RegisterName(s', info2, name, pay).outcome == Fail(NameTaken(name)))
  {
  }

  /** After a transfer, the name resolves to the validated new address. */
  lemma TransferThenResolve(s: State, info: MessageInfo, name: string, to: string,
                            pay: PaymentCheck, validate: AddrValidator)
    requires TransferName(s, info, name, to, pay, validate).outcome == Pass
    ensures Resolve(TransferName(s, info, name, to, pay, validate).state, name) ==
              Some(validate(to).value.text)
  {
  }

  /** Transferring one name does not change what any other name resolves to. */
  lemma TransferKeepsOtherNames(s: State, info: MessageInfo, name: string, to: string,
                                other: string, pay: PaymentCheck, validate: AddrValidator)
    requires other != name
    ensures Resolve(TransferName(s, info, name, to, pay, validate).state, other) == Resolve(s, other)
  {
    DistinctKeys(name, other);
  }

  /** A name that was never registered cannot gain a record by a transfer. */
  lemma TransferCreatesNoName(s: State, info: MessageInfo, name: string, to: string,
                              pay: PaymentCheck, validate: AddrValidator)
    requires Resolve(s, name) == None
    ensures TransferName(s, info, name, to, pay, validate).outcome != Pass
    ensures Resolve(TransferName(s, info, name, to, pay, validate).state, name) == None
  {
  }

  /** The bytes of a name that passed validation: 3 to 64 bytes, each the code of a
      character of the alphabet. */
  predicate IsNameKey(k: Key) {
    && MinNameLength <= |k| <= MaxNameLength
    && forall i :: 0 <= i < |k| ==> k[i] as char in NameAlphabet
  }

  /** Every stored key is the key of a valid name. */
  predicate Invariant(s: State) {
    forall k :: k in s.records ==> IsNameKey(k)
  }

  lemma ValidNameKey(name: string)
    requires ValidateName(name) == Pass
    ensures IsNameKey(KeyOf(name))
  {
    ValidNameIsAscii(name);
    var k := KeyOf(name);
    forall i | 0 <= i < |k| ensures k[i] as char in NameAlphabet {
      assert k[i] as char == name[i];
    }
  }

  /** Every invocation keeps the invariant: names are validated when they are
      registered, and a transfer adds no key. */
  lemma ExecuteKeepsInvariant(s: State, info: MessageInfo, msg: ExecuteMsg,
                              pay: PaymentCheck, validate: AddrValidator)
    requires Invariant(s)
    ensures Invariant(Execute(s, info, msg, pay, validate).state)
  {
    if msg.Register? && ValidateName(msg.name) == Pass {
      ValidNameKey(msg.name);
    }
  }

  /** Records are never removed, and a record changes only when its owner transfers it. */
  lemma OnlyOwnerChangesRecord(s: State, info: MessageInfo, msg: ExecuteMsg,
                               pay: PaymentCheck, validate: AddrValidator, k: Key)
    requires k in s.records
    ensures var s' := Execute(s, info, msg, pay, validate).state;
            && k in s'.records
            && (s'.records[k] != s.records[k] ==>
                  msg.Transfer? && k == KeyOf(msg.name) && s.records[k].owner == info.sender)
  {
  }
}
