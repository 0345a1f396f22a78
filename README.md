# Nameservice name registry, modelled in Dafny

The nameservice contract is a name registry for a blockchain virtual machine. It stores
a configuration singleton (a purchase price and a transfer price, each optional) and a
map from a name to the record of its owner. It has three entry points:

- **instantiate** stores the two prices.
- **execute** either registers a name to its sender or transfers a name from its owner
  to a new address.
- **query** resolves a name to its owner's address, or returns the configuration.

Registration validates the name first. A name is 3 to 64 *bytes* of lowercase ASCII
letters, digits, `.`, `-` and `_`, and the first character outside that set is
reported. Registration then charges the purchase price and refuses a name that is
taken. A transfer charges the transfer price, validates the new owner's address, and
then rewrites the record only when the sender owns it. An error aborts the invocation,
and the host discards its writes.

The project has these modules:

- `Wrappers` (`wrappers.dfy`): `Option` and `Result`.
- `Errors` (`errors.dfy`): the contract's error kinds, and `Outcome` (success or an
  error).
- `Utf8` (`utf8.dfy`): the UTF-8 encoding of a name. It gives the byte length that
  `str::len` reports and the key that `str::as_bytes` produces. A decoder proves that
  distinct names have distinct keys.
- `Validation` (`validation.dfy`): `invalid_char` and `validate_name`.
- `Registry` (`registry.dfy`): the contract as a state machine over a `State` value.
  Each entry point is a function from the storage before an invocation to its outcome
  and the storage after it. Their contracts state the order of the checks, the result
  on each path, that every error leaves storage unchanged, and which records change.
  Lemmas relate several invocations.
- `Contract` (`contract.dfy`): the class `NameService`. Its `config` and `records`
  fields are the contract's storage. Its entry-point methods update those fields in
  place, step by step as the source does. Each method is proved to produce exactly the
  outcome and storage of the matching `Registry` function.

The host's payment check and its address validation are function-typed parameters
(`PaymentCheck` and `AddrValidator`). Every property holds for every payment rule and
every address validator.

The doc comment of `validate_name` (nameservice/src/contract.rs:123) speaks of "3-64
lowercase ascii letters". The code counts bytes (`name.len()` at
nameservice/src/contract.rs:125). The model follows the code, and `ByteLengthExample`
shows the difference: one two-byte character is too short.

## Model

| member | source | states |
|---|---|---|
| `Validation.InvalidChar` | nameservice/src/contract.rs:117-120 | a character is invalid exactly when it is not one of the 39 characters of the name alphabet (digits, lowercase ASCII letters, `.`, `-`, `_`) |
| `Validation.FirstInvalid` | nameservice/src/contract.rs:137 | the left-to-right scan returns the index of an invalid character that has only valid characters before it, and returns nothing exactly when every character is valid |
| `Validation.ValidateName` | nameservice/src/contract.rs:124-145 | passes exactly for names of 3 to 64 bytes over the alphabet; `NameTooShort(length, 3)` exactly when the name is shorter than 3 bytes; `NameTooLong(length, 64)` exactly when it is at least 3 and over 64 bytes; `InvalidCharacter` exactly when the length is acceptable and some character is outside the alphabet, and then the character reported is the first such one |
| `Validation.ByteLength` | nameservice/src/contract.rs:125 | a name's length as `name.len()` counts it: between its character count and four times that, and equal to its character count exactly when the name is all ASCII |
| `Validation.ReportsFirstInvalid` | nameservice/src/contract.rs:137-142 | conversely, for a name of acceptable length, the first character outside the alphabet is the one reported |
| `Validation.ValidNameIsAscii` | nameservice/src/contract.rs:122-125 | a name that passes validation is ASCII: it has 3 to 64 characters, its byte length is its character count, and its bytes are its character codes |
| `Validation.FirstOffenderExample` | nameservice/src/contract.rs:137-141 | `"ab!cd"` is refused with `InvalidCharacter('!')` |
| `Validation.ByteLengthExample` | nameservice/src/contract.rs:125-130 | the one-character, two-byte name `"é"` is refused with `NameTooShort(2, 3)` |
| `Validation.NonAsciiExample` | nameservice/src/contract.rs:125-142 | `"éab"` is four bytes long, passes the length checks, and is refused with `InvalidCharacter('é')` |
| `Utf8.EncodeChar` | nameservice/src/contract.rs:125 | a character takes one to four bytes, and one byte exactly when it is ASCII |
| `Utf8.Encode` | nameservice/src/contract.rs:55 | a string's byte length lies between its character count and four times that count |
| `Utf8.EncodeCharInverse` | nameservice/src/contract.rs:55 | the leading byte of an encoded character announces its length, and the bytes carry its code point |
| `Utf8.DecodeEncode` | nameservice/src/contract.rs:55 | decoding the bytes of a name gives the name back |
| `Utf8.EncodeInjective` | nameservice/src/contract.rs:55 | two names with the same bytes are the same name |
| `Utf8.AsciiEncoding` | nameservice/src/contract.rs:125 | a string's byte length equals its character count exactly when it is all ASCII, and its bytes are then its character codes |
| `Registry.KeyOf` | nameservice/src/contract.rs:55 | the storage key `name.as_bytes()` is as long as the name's byte length and decodes back to the name |
| `Registry.LoadConfig` | nameservice/src/contract.rs:52 | loading the configuration succeeds exactly when it was stored, and returns it; otherwise it fails with `NotFound` |
| `Registry.Instantiate` | nameservice/src/contract.rs:14-28 | succeeds, stores the two prices as given, and leaves the records alone |
| `Registry.RegisterName` | nameservice/src/contract.rs:44-67 | an invalid name fails with its validation error whatever the state; before instantiation a valid name fails with `NotFound`; a valid name whose payment check fails gets that check's error, whether or not the name is taken; a valid name whose price is paid fails with `NameTaken` exactly when its key is present; success requires all three checks and adds exactly the record `name ↦ sender`, leaving every existing record as it was; every failure leaves storage unchanged; the configuration never changes |
| `Registry.TransferName` | nameservice/src/contract.rs:69-94 | checks in order the configuration (`NotFound`), the payment of the transfer price (a failed check's error is returned whatever the address and the record) and the new address (its error passed through); then fails with `NameNotExists` on a missing record and with `Unauthorized` when the sender is not the owner, and succeeds otherwise, making the validated address the owner; no record is added or removed and no other record changes; every failure leaves storage unchanged |
| `Registry.UpdateOwner` | nameservice/src/contract.rs:81-92 | the closure given to `update` yields `NameNotExists` exactly when the record is missing, `Unauthorized` exactly when its owner is not the sender, succeeds exactly when the sender owns the record, and then yields the same keys with only that record's owner replaced |
| `Registry.MayLoad` | nameservice/src/contract.rs:58 | returns a record exactly when the key is stored, and it is the stored one |
| `Registry.Resolve` | nameservice/src/contract.rs:104-110 | returns an address exactly when the name has a record, and it is the owner's |
| `Registry.Execute` | nameservice/src/contract.rs:37-40 | whatever the message, a failure leaves storage unchanged and the configuration never changes; no record is removed; a new record appears only by registering that name to the sender; an existing record changes only by a transfer of that name sent by its owner |
| `Registry.Query` | nameservice/src/contract.rs:98-101 | only the configuration query can fail, and only before instantiation, with `NotFound`; resolving a name returns an address exactly when the name has a record, and it is the owner's; the configuration query returns the stored configuration |
| `Registry.InstantiateThenQueryConfig` | nameservice/src/contract.rs:100 | after instantiation, the configuration query returns the prices that were given |
| `Registry.RegisterThenResolve` | nameservice/src/contract.rs:55-64 | after a successful registration, the name resolves to the sender |
| `Registry.DistinctKeys` | nameservice/src/contract.rs:55 | distinct names have distinct storage keys |
| `Registry.RegisterKeepsOtherNames` | nameservice/src/contract.rs:55-64 | a registration, successful or not, changes the resolution of no other name |
| `Registry.RegisterTwiceIsTaken` | nameservice/src/contract.rs:58-61 | after a successful registration, a second registration of the same name by anyone fails and leaves storage unchanged, and fails with `NameTaken` when its price is paid |
| `Registry.TransferThenResolve` | nameservice/src/contract.rs:79-92 | after a successful transfer, the name resolves to the validated new address |
| `Registry.TransferKeepsOtherNames` | nameservice/src/contract.rs:80-92 | a transfer, successful or not, changes the resolution of no other name |
| `Registry.TransferCreatesNoName` | nameservice/src/contract.rs:81-91 | a transfer of a name without a record fails, and the name still has no record |
| `Registry.ValidNameKey` | nameservice/src/contract.rs:50-56 | the key of a name that passed validation is 3 to 64 bytes, each the code of an alphabet character |
| `Registry.ExecuteKeepsInvariant` | nameservice/src/contract.rs:37-40 | every execute message keeps the invariant that each stored key is the key of a valid name, although names are validated only at registration |
| `Registry.OnlyOwnerChangesRecord` | nameservice/src/contract.rs:81-88 | no execute message removes a record, and a record changes only through a transfer of that name sent by its owner |
| `Contract.NameService.Instantiate` | nameservice/src/contract.rs:14-28 | the stored configuration becomes the given prices, and the outcome and new storage are those of `Registry.Instantiate` |
| `Contract.NameService.Execute` | nameservice/src/contract.rs:30-41 | dispatches to register or transfer; the outcome and new storage are those of `Registry.Execute` |
| `Contract.NameService.ExecuteRegister` | nameservice/src/contract.rs:44-67 | updates the record field in place; the outcome and new storage are those of `Registry.RegisterName` |
| `Contract.NameService.ExecuteTransfer` | nameservice/src/contract.rs:69-94 | updates the record field in place; the outcome and new storage are those of `Registry.TransferName` |
| `Contract.NameService.Query` | nameservice/src/contract.rs:96-102 | changes nothing and answers as `Registry.Query`: the resolution of a name, or the configuration (`NotFound` before instantiation) |
| `Contract.NameService.QueryResolver` | nameservice/src/contract.rs:104-114 | changes nothing and returns `Registry.Resolve` of the current storage |

## Left out

- The payment check `assert_sent_sufficient_coin` comes from `coin_helpers.rs`, which is not part of this model. It is the parameter `PaymentCheck`, a function of the funds sent and the configured price that passes or fails with an error of its choosing.
- Address validation (`deps.api.addr_validate`) is host functionality. It is the parameter `AddrValidator`, a function from a string to an address or a host error.
- Storage is an in-model map plus an optional configuration. The model leaves out the storage namespaces, serialisation of records, and the errors `may_load` and `save` could raise on corrupt storage.
- Responses are not modelled, because they are always `Response::default()`. Query results are returned as a `QueryResponse` value instead of serialised JSON (`to_binary`). The environment (`Env`) is not modelled, because it is never read.
- `ConfigKind` stands for the type name the host puts in its `NotFound` error. The file declaring `Config` (`state.rs`) is not part of this model, so the string is a stand-in.
- `Validation.FirstInvalid` returns the character index of the first offender. `str::find` returns its byte offset, which the source immediately turns back into the character. The character reported is the same.
- `Validation.ValidateName` does not model the `as u64` casts. Every string's byte length fits in 64 bits, so they are lossless.
- `Utf8.Decode` is a lenient decoder that exists only to prove that the encoding is injective. It does not reject overlong forms or bad continuation bytes, and the source does not decode names.
- Rollback on failure is the host's job. The model represents it by returning the original storage on every error path, and the contracts prove that property.
- The token contract (`erc20/src/msg.rs`, `erc20/src/state.rs`) declares message and state types only. It has no logic to model.
