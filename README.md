# A verified model of a teaching blockchain ledger

This project models the in-memory ledger of `edu.grinnell.csc207.blockchains`:
an append-only chain of blocks, each holding one transaction and the hash of
the block before it, sealed by a proof-of-work nonce that a pluggable
`HashValidator` accepts.

- `Hashes` (`Hash.java`): an immutable byte sequence with length, indexed
  access, copying in and out, the upper-case hex rendering of `toString`,
  byte-wise equality and a `hashCode` consistent with it.
- `Transactions` (`Transaction.java`): source, target and amount, with
  structural equality and the display form `[Deposit, Target: T, Amount: A]`
  or `[Source: S, Target: T, Amount: A]`.
- `Blocks` (`Block.java`): number, transaction, previous hash and nonce;
  the byte layout of `getBytes`, the hash computed at construction, and the
  ascending nonce search.
- `Chains` (`BlockChain.java`): the class `BlockChain` with its fields
  `blocks` (front to rear) and `size`, and the operations `mine`, `append`,
  `removeLast`, `getHash`, `check`, `isCorrect`, `users`, `balance`,
  `blocks` and `iterator`.
- `Scenarios`: the front end's validator ("the first K bytes are zero") and
  worked examples.

Modelling choices:

- Every field of a Java `Block` except `prevBlock` is set only by the
  constructors, so a block is a value. The doubly linked `front`, `rear`,
  `prevBlock` and `nextBlock` structure is the sequence `blocks`. `front` is
  `blocks[0]`, `rear` is the last element, and the `prevBlock` of `blocks[i]`
  is `blocks[i - 1]`, null for the front. `Block.nextBlock` is not declared in
  `Block.java`, so forward order is sequence order.
- SHA-256 and `Transaction.getBytes` are called but not defined in the code
  modelled. `Transaction.java` does not declare `getBytes`. Both are function
  values in `Blocks.External`, and nothing is assumed about them. The
  validator is a function value `Hash -> bool`. Java's `String.hashCode` is a
  parameter of the two `HashCode` functions.
- A Java `byte` is a `byte` in 0..255 holding the same eight bits. `(byte) n`
  is `n % 256`, which agrees with Java for negative `n` as well.
- `instanceof` checks take an `Option`: `None` stands for an object of
  another class, or null.
- `getBytes` writes one low byte of the number, the transaction's bytes, the
  previous hash and one low byte of the nonce (`Block.java:99-106`).
- `Transaction.toString` encloses the display form in square brackets
  (`Transaction.java:34-39`).
- `users()` includes the genesis target `""`, so after a deposit to alice and
  a transfer to bob the users are `{"", "alice", "bob"}`.
- `append` does not check block numbers (`BlockChain.java:60-70`).
- The hash depends only on the low bytes of the block number and the nonce
  (`Block.java:101-104`). So a nonce search that can succeed succeeds below
  256, and that is how the loop's termination is proved. It also means each
  block has at most 256 candidate digests, which "## Findings" records as a
  defect; `Blocks.Block.WideBytes` is the layout with the whole nonce.

## Model

| member | source | states |
|---|---|---|
| `Hashes.NewHash` | src/main/java/edu/grinnell/csc207/blockchains/Hash.java:28-56 | the new hash has the array's length, and `get(i)` is the array's ith byte for every index |
| `Hashes.GetBytes` | src/main/java/edu/grinnell/csc207/blockchains/Hash.java:58-66 | `getBytes` returns a fresh array holding exactly the hash's bytes |
| `Hashes.CopiesAreIndependent` | src/main/java/edu/grinnell/csc207/blockchains/Hash.java:28-66 | `new Hash(b).getBytes()` equals `b`, also when empty, and writing to the input array afterwards leaves the hash and the copy unchanged |
| `Hashes.Hex` | src/main/java/edu/grinnell/csc207/blockchains/Hash.java:73-81 | the rendering is three characters per byte |
| `Hashes.Hash.ToString` | src/main/java/edu/grinnell/csc207/blockchains/Hash.java:73-81 | the builder loop produces the hex rendering of all bytes, of length 3 × `length()` |
| `Hashes.ParseHexInvertsHex` | src/main/java/edu/grinnell/csc207/blockchains/Hash.java:73-81 | the rendering can be read back to exactly the bytes rendered |
| `Hashes.HexInjective` | src/main/java/edu/grinnell/csc207/blockchains/Hash.java:73-81 | two byte sequences render alike if and only if they are equal |
| `Hashes.Hash.Equals` | src/main/java/edu/grinnell/csc207/blockchains/Hash.java:83-95 | intended `equals`: true iff the other object is a Hash of the same length with the same byte at every index |
| `Hashes.Hash.EqualsAsWritten` | src/main/java/edu/grinnell/csc207/blockchains/Hash.java:92-95 | as-written `equals`, with the call depth bounded by fuel; no contract of its own, described by `Hashes.EqualsAsWrittenNeverAnswers` |
| `Hashes.EqualsAsWrittenNeverAnswers` | src/main/java/edu/grinnell/csc207/blockchains/Hash.java:92-95 | as written, `equals` with any Hash never returns at any call depth, and with a non-Hash returns false |
| `Hashes.Hash.HashCode` | src/main/java/edu/grinnell/csc207/blockchains/Hash.java:97-104 | `hashCode` is the string hash of the rendering, and every hash equal to this one has a rendering with the same string hash |
| `Hashes.EqualsAgreesWithHex` | src/main/java/edu/grinnell/csc207/blockchains/Hash.java:92-104 | intended equality holds iff the `toString` forms are equal, so equal hashes have equal `hashCode` for any string hash |
| `Transactions.Transaction.Equals` | src/main/java/edu/grinnell/csc207/blockchains/Transaction.java:53-57 | `equals(Transaction)` is true iff the two transactions are the same value, that is, source, target and amount all agree |
| `Transactions.EqualsIsEquivalence` | src/main/java/edu/grinnell/csc207/blockchains/Transaction.java:53-57 | `equals(Transaction)` is reflexive, symmetric and transitive |
| `Transactions.Transaction.EqualsObject` | src/main/java/edu/grinnell/csc207/blockchains/Transaction.java:47-50 | `equals(Object)` is true iff the object is a Transaction equal to this one, so it is false for any non-Transaction |
| `Transactions.Transaction.ToString` | src/main/java/edu/grinnell/csc207/blockchains/Transaction.java:34-39 | the display form is enclosed in square brackets |
| `Transactions.ToStringMarksDeposits` | src/main/java/edu/grinnell/csc207/blockchains/Transaction.java:34-39 | the display starts `[D` (Deposit) exactly when the source is empty |
| `Transactions.ToStringShowsAmount` | src/main/java/edu/grinnell/csc207/blockchains/Transaction.java:34-39 | the display ends with the amount and `]`, and that amount text reads back to the amount |
| `Transactions.ParseDecimalInvertsDecimalString` | src/main/java/edu/grinnell/csc207/blockchains/Transaction.java:34-39 | the decimal rendering of an int, sign included, reads back to the same int |
| `Transactions.Transaction.HashCode` | src/main/java/edu/grinnell/csc207/blockchains/Transaction.java:42-44 | every transaction equal to this one has a display form with the same string hash |
| `Transactions.EqualsImpliesSameHashCode` | src/main/java/edu/grinnell/csc207/blockchains/Transaction.java:42-57 | equal transactions have equal `toString`, so `hashCode` agrees with `equals` for any string hash |
| `Blocks.Block.Bytes` | src/main/java/edu/grinnell/csc207/blockchains/Block.java:99-106 | `getBytes` is 2 + the transaction bytes + the previous hash bytes long, starts with the number modulo 256 and ends with the nonce modulo 256 |
| `Blocks.Block.CalculateHash` | src/main/java/edu/grinnell/csc207/blockchains/Block.java:82-97 | the hash is SHA-256 of `getBytes()` alone while `prevBlock` is null, and of `getBytes()` followed by the predecessor's `getBytes()` once it is set |
| `Blocks.Block.WideBytes` | src/main/java/edu/grinnell/csc207/blockchains/Block.java:99-106 | corrected `getBytes`: the same layout up to the nonce, then the eight bytes of the whole `long` nonce |
| `Blocks.BaseBytesInjective` | src/main/java/edu/grinnell/csc207/blockchains/Block.java:31-32 | below 256^k, distinct numbers have distinct k-byte big-endian forms |
| `Blocks.LongBytesInjective` | src/main/java/edu/grinnell/csc207/blockchains/Block.java:31-32 | distinct `long` values in 0..2^64 have distinct eight-byte forms |
| `Blocks.WideBytesSeparateNonces` | src/main/java/edu/grinnell/csc207/blockchains/Block.java:99-106 | with the whole nonce written, blocks that differ only in a nonce within 0..2^64 have different digest inputs |
| `Blocks.BytesLayout` | src/main/java/edu/grinnell/csc207/blockchains/Block.java:99-106 | between the first and the last byte, `getBytes` holds the transaction's bytes and then the previous hash's bytes |
| `Blocks.BytesInjective` | src/main/java/edu/grinnell/csc207/blockchains/Block.java:99-106 | for transaction bytes of the same length, two blocks give the same `getBytes` iff they agree on number and nonce modulo 256, on the transaction bytes and on the previous hash |
| `Blocks.WithNonce` | src/main/java/edu/grinnell/csc207/blockchains/Block.java:65-92 | the nonce constructor keeps number, transaction, previous hash and nonce as given, and its stored hash is `calculateHash()` with no predecessor |
| `Blocks.WithValidatorAsWritten` | src/main/java/edu/grinnell/csc207/blockchains/Block.java:50-55 | as written, the validator constructor is the nonce constructor with nonce 0, whatever the validator |
| `Blocks.HashSeesOnlyLowBytes` | src/main/java/edu/grinnell/csc207/blockchains/Block.java:99-106 | blocks whose numbers and nonces agree modulo 256 have the same hash |
| `Blocks.MinableWithinFirst256` | src/main/java/edu/grinnell/csc207/blockchains/Block.java:99-106 | some nonce validates iff some nonce in 0..255 validates |
| `Blocks.MineBlock` | src/main/java/edu/grinnell/csc207/blockchains/Block.java:41-55 | intended mining: the result is the nonce constructor's block at the least non-negative nonce whose hash passes the validator, and that nonce is below 256 |
| `Chains.BlockChain.constructor` | src/main/java/edu/grinnell/csc207/blockchains/BlockChain.java:36-48 | size 1, front is rear, the genesis block has number 0, transaction `("", "", 0)`, an empty previous hash and the least validating nonce, the validator is stored and the chain is correct |
| `Chains.BlockChain.ValidateBlock` | src/main/java/edu/grinnell/csc207/blockchains/BlockChain.java:54-70 | passes iff the hash validates and the previous hash is the rear's hash; reports an invalid hash first, then a broken link |
| `Chains.BlockChain.Mine` | src/main/java/edu/grinnell/csc207/blockchains/BlockChain.java:76-90 | changes nothing; the block has number `size`, the given transaction, the rear's hash as previous hash, a validating hash and the least such nonce |
| `Chains.BlockChain.GetSize` | src/main/java/edu/grinnell/csc207/blockchains/BlockChain.java:92-99 | the number of blocks, at least 1 |
| `Chains.BlockChain.GetHash` | src/main/java/edu/grinnell/csc207/blockchains/BlockChain.java:135-142 | the rear block's hash |
| `Chains.BlockChain.Append` | src/main/java/edu/grinnell/csc207/blockchains/BlockChain.java:101-113 | an accepted block becomes the rear, size grows by one and earlier blocks are unchanged; a refused block leaves the chain unchanged with the reason; correctness is preserved |
| `Chains.CorrectAppend` | src/main/java/edu/grinnell/csc207/blockchains/BlockChain.java:60-70 | a block that passes `validateBlock` keeps a correct chain correct |
| `Chains.BlockChain.RemoveLast` | src/main/java/edu/grinnell/csc207/blockchains/BlockChain.java:115-133 | false and no change on a one-block chain; otherwise true, size drops by one and the predecessor becomes the rear; correctness is preserved |
| `Chains.CorrectPrefix` | src/main/java/edu/grinnell/csc207/blockchains/BlockChain.java:115-133 | removing blocks from the rear keeps a correct chain correct |
| `Chains.BlockChain.Check` | src/main/java/edu/grinnell/csc207/blockchains/BlockChain.java:158-174 | intended `check`: the front-to-rear walk's verdict on the whole chain |
| `Chains.ScanReportsFirstFault` | src/main/java/edu/grinnell/csc207/blockchains/BlockChain.java:158-174 | the walk passes iff every block validates and holds its predecessor's hash; otherwise it names the first faulty block and whether its hash or its link failed |
| `Chains.ScanPassesIffCorrect` | src/main/java/edu/grinnell/csc207/blockchains/BlockChain.java:144-174 | `check` completes iff the chain is correct |
| `Chains.BlockChain.IsCorrect` | src/main/java/edu/grinnell/csc207/blockchains/BlockChain.java:144-156 | true iff every block's hash validates and every non-front block holds its predecessor's hash |
| `Chains.CheckAsWritten` | src/main/java/edu/grinnell/csc207/blockchains/BlockChain.java:163-174 | as-written `check`, the front-to-rear test applied to the `prevBlock` walk from `front`; no contract of its own, described by `Chains.CheckAsWrittenSeesOnlyFront` and `Chains.OneBlockAgrees` |
| `Chains.UsersAsWritten` | src/main/java/edu/grinnell/csc207/blockchains/BlockChain.java:181-192 | as-written `users`, collected over the `prevBlock` walk from `front`; no contract of its own, described by `Chains.AsWrittenAggregatesSeeOnlyGenesis` and `Chains.OneBlockAgrees` |
| `Chains.BalanceAsWritten` | src/main/java/edu/grinnell/csc207/blockchains/BlockChain.java:200-214 | as-written `balance`, summed over the `prevBlock` walk from `front`; no contract of its own, described by `Chains.AsWrittenAggregatesSeeOnlyGenesis` and `Chains.OneBlockAgrees` |
| `Chains.CheckAsWrittenSeesOnlyFront` | src/main/java/edu/grinnell/csc207/blockchains/BlockChain.java:163-174 | as written, `check` passes iff the front block validates, so a later invalid block goes unnoticed |
| `Chains.BlockChain.Users` | src/main/java/edu/grinnell/csc207/blockchains/BlockChain.java:176-192 | the loop collects the users of all blocks |
| `Chains.UsersOfMembers` | src/main/java/edu/grinnell/csc207/blockchains/BlockChain.java:176-192 | a name is a user iff some block has it as target, or as a non-empty source |
| `Chains.BlockChain.Balance` | src/main/java/edu/grinnell/csc207/blockchains/BlockChain.java:194-214 | the loop sums, over all blocks, plus the amount where the user is target and minus it where the user is source |
| `Chains.Contribution` | src/main/java/edu/grinnell/csc207/blockchains/BlockChain.java:204-210 | a block adds 0 for a user in neither role and for a self-transfer, +amount to its target and −amount to its source |
| `Chains.BalanceIsReceivedMinusSent` | src/main/java/edu/grinnell/csc207/blockchains/BlockChain.java:194-214 | the balance is the total received minus the total sent |
| `Chains.BalanceOfAbsentUser` | src/main/java/edu/grinnell/csc207/blockchains/BlockChain.java:194-199 | a user who appears in no transaction has balance 0 |
| `Chains.BalanceOfConcat` | src/main/java/edu/grinnell/csc207/blockchains/BlockChain.java:200-214 | the balance is additive over any split of the chain |
| `Chains.BalanceWithout` | src/main/java/edu/grinnell/csc207/blockchains/BlockChain.java:200-214 | taking one block out of the chain takes exactly its contribution out of every balance |
| `Chains.BalanceOfPermutation` | src/main/java/edu/grinnell/csc207/blockchains/BlockChain.java:200-214 | the balance does not depend on the order of the blocks: any reordering of the same blocks gives the same balance |
| `Chains.PrevWalk` | src/main/java/edu/grinnell/csc207/blockchains/BlockChain.java:107-113 | following `prevBlock` from position i meets positions i, i − 1, …, 0 and then null |
| `Chains.BalanceOfPrevWalk` | src/main/java/edu/grinnell/csc207/blockchains/BlockChain.java:200-214 | a walk along `prevBlock` from position i sums the same balance as the blocks up to i |
| `Chains.AsWrittenAggregatesSeeOnlyGenesis` | src/main/java/edu/grinnell/csc207/blockchains/BlockChain.java:181-214 | as written, `users` is always `{""}` and every `balance` is 0 |
| `Chains.FindNumber` | src/main/java/edu/grinnell/csc207/blockchains/BlockChain.java:126-129 | the search returns the first block along the walk with the wanted number, or null when none has it |
| `Chains.OneBlockAgrees` | src/main/java/edu/grinnell/csc207/blockchains/BlockChain.java:158-214 | on a chain of the genesis block alone, the as-written `check`, `users` and `balance` give the intended results; as written, `Hash.equals` keeps every chain at that one block |
| `Chains.RemoveLastAsWritten` | src/main/java/edu/grinnell/csc207/blockchains/BlockChain.java:121-133 | the new `rear` that as-written `removeLast` picks: the first block of the `prevBlock` walk from `front` numbered one below the rear, or null; no contract of its own, described by `Chains.RemoveLastAsWrittenLosesRear` |
| `Chains.RemoveLastAsWrittenLosesRear` | src/main/java/edu/grinnell/csc207/blockchains/BlockChain.java:121-133 | as written, on a chain of three or more blocks numbered by position, `removeLast` sets `rear` to null |
| `Chains.BlockChain.Blocks` | src/main/java/edu/grinnell/csc207/blockchains/BlockChain.java:228-250 | yields exactly `size` blocks, front to rear |
| `Chains.BlockChain.Iterator` | src/main/java/edu/grinnell/csc207/blockchains/BlockChain.java:252-274 | yields exactly `size` transactions, those of the blocks front to rear |
| `Chains.MineThenAppend` | src/main/java/edu/grinnell/csc207/main/BlockChainUI.java:89-112 | mining, then rebuilding the block from the reported nonce and appending it, always succeeds and makes that block the rear |
| `Scenarios.LeadingZeroBytes` | src/main/java/edu/grinnell/csc207/main/BlockChainUI.java:62-73 | the front end's validator: the hash has at least k bytes and its first k bytes are zero; no contract of its own, used by `Scenarios.ToyHashes` and `Scenarios.UnminedGenesisFailsValidator` |
| `Scenarios.UnminedGenesisFailsValidator` | src/main/java/edu/grinnell/csc207/blockchains/Block.java:50-55 | as written, a genesis block can fail the validator although a validating nonce exists, and then `isCorrect` is false on a fresh chain |
| `Scenarios.AliceAndBobAggregates` | src/main/java/edu/grinnell/csc207/blockchains/BlockChain.java:176-214 | after a deposit of 100 to alice and a transfer of 30 to bob: alice has 70, bob 30, and the users are `""`, alice and bob |
| `Scenarios.AliceAndBob` | src/main/java/edu/grinnell/csc207/main/BlockChainUI.java:89-147 | the same results through the chain's own mine, append, balance and users operations |
| `Scenarios.TamperedBlockIsRefused` | src/main/java/edu/grinnell/csc207/blockchains/BlockChain.java:60-70 | a block whose nonce fails the validator is refused as invalid, and the chain keeps its length |

## Findings

| source | as written | input that shows it | evidently intended | confidence | as-written member | corrected member |
|---|---|---|---|---|---|---|
| src/main/java/edu/grinnell/csc207/blockchains/Hash.java:92-95 | `equals(Object)` casts to Hash and calls `equals(Object)` again, because there is no `equals(Hash)` | any Hash compared with any Hash. This includes the link test of `validateBlock`, so as written every block that passes the validator makes `append` overflow the stack | byte-wise equality | high; not executed | `Hashes.EqualsAsWrittenNeverAnswers` | `Hashes.Hash.Equals` |
| src/main/java/edu/grinnell/csc207/blockchains/Block.java:50-55 | the validator-taking constructor does not mine, and the nonce stays 0 | a validator and digest under which nonce 0 fails but nonce 1 passes: the genesis block fails, and `isCorrect()` on a fresh chain is false | the least validating nonce, as the doc comment says | high; not executed | `Scenarios.UnminedGenesisFailsValidator` | `Blocks.MineBlock` |
| src/main/java/edu/grinnell/csc207/blockchains/BlockChain.java:163-174 | `check` walks from `front` along `prevBlock`, so it examines only the front block | a chain whose second block fails the validator still checks out. `append` does not build such a chain, and as written no chain grows past the genesis block until `Hash.equals` is fixed | every block is examined, front to rear | medium; not executed | `Chains.CheckAsWrittenSeesOnlyFront` | `Chains.BlockChain.Check` |
| src/main/java/edu/grinnell/csc207/blockchains/BlockChain.java:181-192 | `users` walks the same way, so it yields only the genesis target | once `Hash.equals` is fixed, after a deposit to alice, `users()` yields only `""`. Before that fix `append` never gets past its link test, and on the genesis block alone the as-written `users` is the intended one | the users of all blocks | high; not executed | `Chains.AsWrittenAggregatesSeeOnlyGenesis` | `Chains.BlockChain.Users` |
| src/main/java/edu/grinnell/csc207/blockchains/BlockChain.java:200-214 | `balance` walks the same way, so it is always 0 | once `Hash.equals` is fixed, after a deposit of 100 to alice, `balance("alice")` is 0. Before that fix the chain never grows past the genesis block, where the as-written `balance` is the intended one | the balance over all blocks | high; not executed | `Chains.AsWrittenAggregatesSeeOnlyGenesis` | `Chains.BlockChain.Balance` |
| src/main/java/edu/grinnell/csc207/blockchains/BlockChain.java:121-133 | `removeLast` walks the same way to find the block numbered one below the rear, and takes null when it does not find it | once `Hash.equals` is fixed, a chain of three blocks numbered 0, 1 and 2: `rear` becomes null, and the next `getHash` or `mine` fails. Before that fix the chain keeps one block, and `removeLast` returns false as intended | the rear's predecessor becomes the rear | high; not executed | `Chains.RemoveLastAsWrittenLosesRear` | `Chains.BlockChain.RemoveLast` |
| src/main/java/edu/grinnell/csc207/blockchains/Block.java:104 | `getBytes` writes only `(byte) nonceF` of the `long` nonce, so a block has at most 256 distinct digest inputs and the do-while of `mine` (`BlockChain.java:85-87`) tries no new hash after nonce 255 | the front end's validator, which asks for 3 zero bytes (`BlockChainUI.java:20`, `BlockChainUI.java:62-73`): for a digest that behaves like a random function, some nonce in 0..255 passes with probability about 256 × 2^-24 = 2^-16, and otherwise `mine` never returns | all eight bytes of the nonce reach the digest, so distinct nonces give distinct inputs | plausible; rests on SHA-256 behaving like a random function; not executed | `Blocks.MinableWithinFirst256` | `Blocks.WideBytesSeparateNonces` |

The as-written members are `Hashes.Hash.EqualsAsWritten`,
`Blocks.WithValidatorAsWritten`, `Chains.CheckAsWritten`,
`Chains.UsersAsWritten`, `Chains.BalanceAsWritten` and
`Chains.RemoveLastAsWritten`. The lemmas named in the table exhibit each
discrepancy. The rest of the model uses the corrected behaviour, except
for the nonce layout: `Blocks.Block.Bytes` keeps the one-byte nonce that
`Block.java:104` writes, because mining's termination proof and
`Blocks.HashSeesOnlyLowBytes` are about that layout; `Blocks.Block.WideBytes`
and `Blocks.WideBytesSeparateNonces` state the corrected one.

## Left out

- SHA-256 (`MessageDigest`) and `Transaction.getBytes` are parameters (`Blocks.External`) with no assumed properties. The exception swallowed by `calculateHash` returns null only when SHA-256 is unavailable, and it is not modelled.
- Java's `String.hashCode` is a parameter. Only the consistency of `hashCode` with `equals` is modelled, not its numeric value.
- Java `int` and `long` wrap-around is not modelled: `balance`, `size` and the nonce counter are mathematical integers. Block numbers, nonces and amounts are unbounded `int`s. Only the low byte of the block number and of the nonce reaches the hash (`Block.java:101`, `Block.java:104`). An amount reaches the hash only through `Transaction.getBytes`, which the code modelled does not define, and nothing is assumed about how it is serialised.
- `Hashes.Hash.Get`: the index range 0 ≤ i < `length()` documented in the source is a precondition. The `ArrayIndexOutOfBoundsException` outside it is not modelled.
- `Hashes.Hash.Get` and `Hashes.Hash.Length` have no contracts of their own. They are the byte access and the length used by the contracts of `NewHash`, `GetBytes` and `Equals`.
- Null arguments and the `NullPointerException`s they cause are not modelled.
- `Transaction` and `Block` getters are the datatypes' field selectors. `computeHash` is part of `Blocks.WithNonce`.
- `Blocks.Block.CalculateHash` with a predecessor is modelled as a function. Its result is never stored, because `computeHash` runs only in the constructors, while `prevBlock` is still null.
- Block identity and aliasing are not modelled. Java would rewrite the `prevBlock` of a block object that is appended twice or shared between chains. `removeLast` does not clear the removed block's links: the new rear's `nextBlock`, set at `BlockChain.java:109`, still points at the removed block, so a `nextBlock` walk in `blocks()` or `iterator()` after `removeLast` would still meet it. `Chains.BlockChain.Blocks` and `Chains.BlockChain.Iterator` yield the blocks of the sequence, as if that link were cleared.
- `Chains.BlockChain.RemoveLast` (corrected) has no search loop. The rear's predecessor is the position before it.
- `Chains.BlockChain.constructor` and `Chains.BlockChain.Mine` require that some nonce validates. Without one, the intended search loops forever. `Blocks.MinableWithinFirst256` shows that nonces 0..255 decide this. Under the front end's own validator (3 zero bytes) and a digest that behaves like a random function, no nonce in 0..255 passing is the expected case, so these preconditions exclude what that validator nearly always produces; "## Findings" records this.
- The `hasNext`/`next`/`NoSuchElementException` protocol of the iterators is not modelled. `Blocks` and `Iterator` return the sequence the iteration yields.
- `users()` returns an iterator over a `HashSet`, whose order is unspecified. It is modelled as a set.
- `printTransactions`, the stub `Block.toString`, and the console loop and prompts of `BlockChainUI` are output only. Only the front end's validator (`Scenarios.LeadingZeroBytes`) and its mine-then-append round are modelled.
