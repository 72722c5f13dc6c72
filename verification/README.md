# mock-oracles, modelled in Dafny

The two Solana programs of the mock-oracles repository write fake oracle
accounts for tests. This project models what each of their instructions does
to an account's raw bytes:

- `mock-oracles` stamps Pyth price and product accounts and Switchboard v2
  aggregator accounts through zero-copy record views of the account data.
- `write_account` is the cruder writer. It splices raw bytes, writes a whole
  transmuted Pyth `Price` record, or writes a tag byte followed by a
  serialised Switchboard v1 aggregator.

An account is a `Region`, a sequence of bytes (`bytes.dfy`, `region.dfy`).
Each instruction is a function from regions and arguments to
`Result<Region>`. A Rust panic (slice out of range, `copy_from_slice` length
mismatch, `unwrap` of a serialiser error) or a `?` error is a `Failure`. It
aborts the whole instruction, and the host discards its writes.

The third-party records (`PriceAccount`/`Price`, `ProductAccount`,
`AggregatorAccountData`) are datatypes. Each holds the fields the programs
touch and an opaque `rest` block for every other byte. The crates that define
them are not part of this model, so the byte order of the touched fields is a
stand-in:

- the four-byte fields come first, little-endian and in declaration order;
- then the eight-byte fields (and the 16-byte mantissa), in the same way;
- then `rest`.

The product record is the exception: it has no `rest` block. Its image is
the four header words, the 32-byte price key and the 464-byte attribute
block, in that order.

The record sizes come from the SDK: 3312, 512 = 48 + 464, and 3851 = 8 + 3843.
Every property is stated either per field or against the record's whole
image, and the image codec is proved a bijection (`PythState`,
`SwitchboardState`). The properties therefore do not depend on the stand-in
order.

Rust `as` casts are written out as explicit functions in `Bytes`:

- `i32 as u32` and `u64 as i64` wrap;
- `i64 as i128` sign-extends.

`SignExtensionImage` proves the byte image of the sign-extended value.

Points where the code's behaviour is easy to misread:

- **Error kinds.** An undersized region is a slice panic in the code,
  `IndexOutOfBounds` here. Only a `copy_from_slice` on a range of the wrong
  length is `LengthMismatch`.
- **`init_pyth` keeps the other price fields.** It writes five header fields
  and leaves every other price field as it was. It does not zero them
  (`SameOutsidePriceHeader`).
- **`write` needs an exact fill.** The code copies into
  `account_data[offset..]`, so the bytes must fill the tail exactly. Shorter
  data fails; it is not a partial write.
- **`set_switchboard_price` writes three round fields.** It rewrites three
  fields of the confirmed round (success count, result, opening slot) and
  `min_oracle_results`. The round's other fields stay as they were.
- **The clock slot is an argument.** Under that model `set_pyth_price` with
  the same arguments is idempotent, slot included.

## Model

| member | source | states |
|---|---|---|
| `MockOracles.LoadAccountAsMut` | programs/mock-oracles/src/lib.rs:125-133 | the view is exactly bytes [0, size) of the account; a shorter account fails with the slice panic |
| `MockOracles.LoadPriceAccount` | programs/mock-oracles/src/lib.rs:125-133 | a price view exists iff the account holds at least 3312 bytes, and the record it shows has exactly those bytes as its image |
| `MockOracles.StorePriceAccount` | programs/mock-oracles/src/lib.rs:26-31 | writing fields through the view keeps the account's length and every byte past the record, and the view then shows the record written |
| `MockOracles.StoreLoadedPrice` | programs/mock-oracles/src/lib.rs:125-133 | writing back the record the view shows leaves the account byte-for-byte unchanged |
| `MockOracles.StorePriceTwice` | programs/mock-oracles/src/lib.rs:125-133 | a second store through the view hides the first completely |
| `MockOracles.LoadProductAccount` | programs/mock-oracles/src/lib.rs:48 | a product view exists iff the account holds at least PROD_ACCT_SIZE bytes, and its record has exactly those bytes as its image |
| `MockOracles.StoreProductAccount` | programs/mock-oracles/src/lib.rs:48-54 | writing the product fields keeps the length and every byte past the record, and the view then shows the record written |
| `MockOracles.LenAsU8` | programs/mock-oracles/src/lib.rs:37-39 | `len() as u8` is the length itself for every length below 256 |
| `MockOracles.EncodeAttr` | programs/mock-oracles/src/lib.rs:37-40 | a pair takes its key and value plus one length byte before each; `DecodeAttrStep` reads it back |
| `MockOracles.EncodeAttrs` | programs/mock-oracles/src/lib.rs:34-41 | the pairs' images follow one another: the first pair's image opens the block, each pair adds at least two bytes, and only the empty list encodes to nothing |
| `MockOracles.DecodeAttrStep` | programs/mock-oracles/src/lib.rs:34-41 | one length-prefixed pair with a non-empty key, followed by any bytes, reads back as that pair followed by whatever those bytes read as |
| `MockOracles.DecodeEncodeAttrs` | programs/mock-oracles/src/lib.rs:34-46 | any list of encodable pairs, encoded one after another and zero-padded, reads back as exactly that list |
| `MockOracles.QuoteCurrencyAttrsBytes` | programs/mock-oracles/src/lib.rs:13-46 | the attribute block is 464 bytes: 14, ASCII `quote_currency`, 32, `USD`, then zeros to the end |
| `MockOracles.QuoteCurrencyAttrsDecode` | programs/mock-oracles/src/lib.rs:34-46 | the attribute block reads back as exactly one pair, (`quote_currency`, `USD` null-padded to 32 bytes) |
| `MockOracles.QuoteCurrencyAttrs` | programs/mock-oracles/src/lib.rs:34-46 | the 464-byte block is the encoded (`quote_currency`, `QUOTE_CURRENCY`) pair, 48 bytes, followed by zeros |
| `MockOracles.StampPriceHeader` | programs/mock-oracles/src/lib.rs:27-31 | the stamped record carries MAGIC, VERSION_2, the Price account type, size 3312 and the Price price type, and equals the input in every other field |
| `MockOracles.StampProduct` | programs/mock-oracles/src/lib.rs:48-54 | the product record has magic, version 2, the Product type, size 512, the price account's key and the quote-currency block, which reads back as the single `quote_currency` pair |
| `MockOracles.InitPyth` | programs/mock-oracles/src/lib.rs:19-57 | succeeds iff the price account has at least 3312 bytes and the product account at least 512. The price record gets its header stamped and keeps every other field. The product record gets magic, version, Product type, size 512, the price account's key and the quote-currency block. No byte past either record changes |
| `MockOracles.InitPythIdempotent` | programs/mock-oracles/src/lib.rs:19-57 | running `init_pyth` again on its own output changes nothing |
| `MockOracles.ApplyPriceUpdate` | programs/mock-oracles/src/lib.rs:70-89 | the updated record shows the price, confidence, exponent, both EMA rationals with numerator and denominator 1, both slots and Trading, and equals the input in every other field |
| `MockOracles.SetPythPrice` | programs/mock-oracles/src/lib.rs:59-92 | succeeds iff the account has at least 3312 bytes. The written fields hold the arguments and the slot; every other field and every byte past the record stay as they were |
| `MockOracles.SetPythPriceOverwrites` | programs/mock-oracles/src/lib.rs:59-92 | a later `set_pyth_price` replaces an earlier one entirely: the result is what the later call alone produces |
| `MockOracles.SetPythPriceIdempotent` | programs/mock-oracles/src/lib.rs:59-92 | repeating `set_pyth_price` with the same arguments and slot changes nothing |
| `MockOracles.SetPythPriceEmaConfWraps` | programs/mock-oracles/src/lib.rs:81-85 | `ema_conf as i64` wraps: a confidence of 2^63 or more is stored as that value minus 2^64 |
| `MockOracles.SetPythPrices` | programs/mock-oracles/src/lib.rs:59-92 | a run of price updates succeeds iff the run is empty or the account holds a price record, keeps the length and never touches the bytes past the record |
| `MockOracles.PriceHeaderSurvivesUpdates` | programs/mock-oracles/src/lib.rs:68-89 | any number of price updates leave magic, version, account type, size and price type as they were |
| `MockOracles.PythPriceScenario` | tests/mock-oracles.spec.ts:22-42 | after `init_pyth`, setting price 10 reads back 10 at exponent 0 with status Trading; setting 20 then reads back 20; the stamped header stays intact throughout |
| `MockOracles.InitSwitchboard` | programs/mock-oracles/src/lib.rs:94-102 | succeeds iff the account has at least 8 bytes, writes the discriminator into bytes 0..8 and leaves every later byte unchanged |
| `MockOracles.LoadAggregator` | programs/mock-oracles/src/lib.rs:109-111 | the aggregator view exists iff the account holds 8 + 3843 bytes, and its record has exactly bytes [8, 3851) as its image |
| `MockOracles.StoreAggregator` | programs/mock-oracles/src/lib.rs:109-119 | writing through the aggregator view keeps the discriminator and every byte past the record, and the view then shows the record written |
| `MockOracles.ApplySwitchboardUpdate` | programs/mock-oracles/src/lib.rs:113-119 | the updated record has one oracle result required, one success, mantissa = price, scale = `expo as u32` and the slot, with its other bytes unchanged |
| `MockOracles.SetSwitchboardPrice` | programs/mock-oracles/src/lib.rs:104-122 | succeeds iff the account holds 8 + 3843 bytes. The written fields show the update; the discriminator, the record's other bytes and every byte past the record stay as they were |
| `MockOracles.SetSwitchboardPriceOverwrites` | programs/mock-oracles/src/lib.rs:104-122 | a later `set_switchboard_price` replaces an earlier one entirely |
| `MockOracles.SwitchboardMantissaImage` | programs/mock-oracles/src/lib.rs:115-117 | the stored mantissa's 16 bytes are the price's 8 bytes followed by 8 copies of its sign byte |
| `MockOracles.SwitchboardScaleWraps` | programs/mock-oracles/src/lib.rs:115-118 | `expo as u32` wraps: a negative exponent is stored as 2^32 + expo |
| `MockOracles.SwitchboardPriceScenario` | tests/mock-oracles.spec.ts:44-77 | after `init_switchboard`, setting 10, then 20, then the SDK's default -1 reads back each value at scale 0, and the discriminator stays in place |
| `PythState.PriceAccountRoundTrip` | programs/mock-oracles/src/lib.rs:125-133 | reading the image of a price record gives that record back |
| `PythState.PriceAccountImageRoundTrip` | programs/mock-oracles/src/lib.rs:125-133 | every 3312-byte image reads as a record whose image is those same bytes |
| `PythState.PriceAccountImageInjective` | programs/mock-oracles/src/lib.rs:125-133 | two price records with the same image are the same record |
| `PythState.ZeroPriceAccountImage` | programs/write_account/src/lib.rs:24-26 | `std::mem::zeroed()` is the record whose image is 3312 zero bytes |
| `PythState.ProductAccountRoundTrip` | programs/mock-oracles/src/lib.rs:125-133 | reading the image of a product record gives that record back |
| `PythState.ProductAccountImageRoundTrip` | programs/mock-oracles/src/lib.rs:125-133 | every 512-byte image reads as a product record whose image is those same bytes |
| `SwitchboardState.AggregatorRoundTrip` | programs/mock-oracles/src/lib.rs:109-111 | reading the image of an aggregator record gives that record back |
| `SwitchboardState.AggregatorImageRoundTrip` | programs/mock-oracles/src/lib.rs:109-111 | every 3843-byte image reads as an aggregator record whose image is those same bytes |
| `SwitchboardState.AggregatorImageInjective` | programs/mock-oracles/src/lib.rs:109-111 | two aggregator records with the same image are the same record |
| `Bytes.SignExtensionImage` | programs/mock-oracles/src/lib.rs:116 | the 16-byte image of `price as i128` is the 8-byte image of the price followed by eight 0x00 bytes (non-negative) or eight 0xFF bytes (negative) |
| `Bytes.I32AsU32` | programs/mock-oracles/src/lib.rs:117 | `expo as u32` keeps the 32-bit pattern: the result is congruent to the exponent modulo 2^32 and has its top bit set iff the exponent is negative |
| `Bytes.I32AsU32RoundTrip` | programs/mock-oracles/src/lib.rs:117 | reading the stored scale back `as i32` gives every exponent back |
| `Bytes.U32AsI32RoundTrip` | programs/mock-oracles/src/lib.rs:117 | every 32-bit pattern is the `as u32` image of the i32 it reads as |
| `Bytes.U64AsI64` | programs/mock-oracles/src/lib.rs:82 | `ema_conf as i64` is congruent to the confidence modulo 2^64 and negative iff the confidence is 2^63 or more |
| `Bytes.U64AsI64RoundTrip` | programs/mock-oracles/src/lib.rs:82 | the 64-bit pattern survives `as i64`: casting back `as u64` gives the confidence back |
| `Bytes.I64AsU64RoundTrip` | programs/mock-oracles/src/lib.rs:82 | every i64 is the `as i64` image of its own bit pattern |
| `Bytes.I64AsI128` | programs/mock-oracles/src/lib.rs:116 | `price as i128` sign-extends: its 128-bit pattern is the price's 64-bit pattern with the upper 64 bits all set for a negative price and all clear otherwise; `SignExtensionImage` gives its bytes |
| `Region.CopyFromSlice` | programs/mock-oracles/src/lib.rs:99 | succeeds iff the range lies in the region and the source fills it exactly. Otherwise it fails with the slice panic (range outside) or the length panic (range inside). On success the range holds the source and the bytes before and after it are unchanged |
| `Region.Slice` | programs/mock-oracles/src/lib.rs:131 | `&data[lo..hi]` succeeds iff lo <= hi <= length, holds exactly bytes lo..hi, and is the slice panic otherwise |
| `WriteAccount.Write` | programs/write_account/src/lib.rs:16-20 | succeeds iff offset <= length and the data fills the tail exactly; an offset past the end is the slice panic and a wrong length the copy panic. On success the bytes before the offset stay and the tail is the data |
| `WriteAccount.WriteReadBack` | programs/write_account/src/lib.rs:16-20 | the written tail reads back as the data |
| `WriteAccount.WriteOverwrites` | programs/write_account/src/lib.rs:16-20 | a second `write` at the same offset hides the first completely |
| `WriteAccount.WriteIdempotent` | programs/write_account/src/lib.rs:16-20 | repeating a successful `write` changes nothing more |
| `WriteAccount.WriteSameIsNoOp` | programs/write_account/src/lib.rs:16-20 | writing back the bytes the tail already holds leaves the account unchanged |
| `WriteAccount.PythPriceImage` | programs/write_account/src/lib.rs:24-30 | the record is all zero except price type Price, the valid slot, the aggregate price and the exponent |
| `WriteAccount.WritePythPrice` | programs/write_account/src/lib.rs:22-33 | succeeds iff the account is exactly 3312 bytes (otherwise the copy panic), and the account then reads as the mostly-zero record with the four fields set |
| `WriteAccount.WritePythPriceIgnoresPrior` | programs/write_account/src/lib.rs:24-31 | two accounts of the same length end up identical: nothing of the prior contents survives |
| `WriteAccount.WritePythPriceLeavesHeaderBlank` | programs/write_account/src/lib.rs:24-31 | unlike `init_pyth`, the written record has no magic, version, account type or size, and its status is Unknown |
| `WriteAccount.SerializeIntoSlice` | programs/write_account/src/lib.rs:52 | the serialised bytes land at the front of the output when they fit, the rest of the output is kept, and otherwise the serialiser fails |
| `WriteAccount.WriteSwitchboardPrice` | programs/write_account/src/lib.rs:35-55 | a non-zero board type leaves the account unchanged. For board type 0, an empty account is the index panic and a payload longer than length - 1 is the serialiser failure. Otherwise byte 0 becomes TYPE_AGGREGATOR, the payload follows from byte 1, and later bytes are kept |
| `WriteAccount.WriteSwitchboardPriceIdempotent` | programs/write_account/src/lib.rs:35-55 | repeating a successful `write_switchboard_price` with the same payload changes nothing more |
| `WriteAccount.WriteSwitchboardPriceOverwritesFront` | programs/write_account/src/lib.rs:38-52 | the result does not depend on the old tag byte or the old bytes under the payload |

## Left out

- Anchor glue: the `#[derive(Accounts)]` structs, the `mut`/`Signer` constraints, program ids, `msg!` logging and the host's account-ownership checks. They are host concerns and do not touch account bytes.
- `Clock::get()`: the slot is an argument. A failing clock call is not modelled; the host provides the clock.
- `try_borrow_mut_data` failures, including `init_pyth` given the same account as price and product account. Borrow bookkeeping belongs to the host.
- `bytemuck` alignment checks. Account data is aligned by the host, so these never fail for real accounts.
- The real byte offsets of `PriceAccount`, `Price`, `ProductAccount` and `AggregatorAccountData`. The crates that define them (pyth_sdk_solana, pyth_client, switchboard_v2) are not part of this model. The stand-in layout and the opaque `rest` block replace them.
- The host's rollback of writes made before a failure in the same instruction. A failure is modelled as the instruction producing no regions at all.
- The message `write_switchboard_price` serialises: an `f64` price, the configs and the round, encoded by quick_protobuf. It is a floating-point value run through a foreign serialiser, so the model takes the serialised bytes as an argument.
- The values of the constants defined by the third-party crates: `MAGIC`, `VERSION_2`, the `AccountType`, `PriceType` and `PriceStatus` tags (`PythState`) and `SwitchboardAccountType::TYPE_AGGREGATOR` (`WriteAccount`). Those crates are not part of this model; the values used are stand-ins. The properties treat them as fixed values and rely only on `MAGIC` being non-zero.
- `WriteAccount.WriteSwitchboardPrice`: states nothing about the payload's protobuf content, because the serialiser is not part of this model.
- The SDK in `src/index.ts` (transaction building and account creation) and the test harness. Only their account sizes and the test scenarios appear here.
- Bytes are integers 0..255 rather than 8-bit bit-vectors; every byte value is representable, and `len() as u8` and the little-endian images are written with explicit `% 256`.
