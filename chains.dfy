/**
 * The block chain (BlockChain.java): an append-only chain of blocks, each
 * holding the hash of the one before it, validated by a `HashValidator`.
 *
 * The Java class keeps `front` and `rear` pointers and links the blocks
 * through `prevBlock`; here the chain is the sequence `blocks`, with
 * `front == blocks[0]`, `rear == blocks[|blocks| - 1]`, and the `prevBlock`
 * of `blocks[i]` being `blocks[i - 1]` (null for the front block).
 */
module Chains {
  import opened Wrappers
  import opened Hashes
  import opened Transactions
  import opened Blocks

  /** The two reasons `validateBlock` refuses a block. */
  datatype AppendError = InvalidBlock | BrokenLink

  /** The two faults `check` reports, with the number of the block. */
  datatype Fault = InvalidHash | BadPrevHash
  datatype Corruption = Corruption(number: int, fault: Fault)

  /** The genesis transaction: empty source, empty target, amount 0. */
  const GenesisTransaction := Transaction("", "", 0)

  /** The genesis block's previous hash: an empty byte array. */
  const EmptyHash := Hash([])

  predicate IsGenesis(b: Block)
  {
    b.number == 0 && b.transaction == GenesisTransaction && b.prevHash == EmptyHash
  }

  // ---------------------------------------------------------------------
  // Whole-chain specifications
  // ---------------------------------------------------------------------

  /** Block `j` passes the validator and, unless it is the front block,
    * holds its predecessor's hash. */
  predicate SoundAt(blocks: seq<Block>, valid: HashValidator, j: nat)
    requires j < |blocks|
  {
    valid(blocks[j].curHash) && (j > 0 ==> blocks[j].prevHash == blocks[j - 1].curHash)
  }

  /** What `isCorrect()` promises: every block is sound where it stands. */
  predicate Correct(blocks: seq<Block>, valid: HashValidator)
  {
    forall j :: 0 <= j < |blocks| ==> SoundAt(blocks, valid, j)
  }

  /** The verdict of a front-to-rear walk that starts at position `i` and
    * stops at the first block whose hash fails or whose link is broken. */
  function Scan(blocks: seq<Block>, valid: HashValidator, i: nat): Outcome<Corruption>
    requires i <= |blocks|
    decreases |blocks| - i
  {
    if i == |blocks| then Pass
    else if !valid(blocks[i].curHash) then Fail(Corruption(blocks[i].number, InvalidHash))
    else if i > 0 && blocks[i].prevHash != blocks[i - 1].curHash then Fail(Corruption(blocks[i].number, BadPrevHash))
    else Scan(blocks, valid, i + 1)
  }

  /** Block `j` is the first unsound block from position `i` on. */
  predicate FirstFault(blocks: seq<Block>, valid: HashValidator, i: nat, j: nat)
    requires i <= j < |blocks|
  {
    !SoundAt(blocks, valid, j) && forall k :: i <= k < j ==> SoundAt(blocks, valid, k)
  }

  /** `c` names block `j` and says whether its hash or its link failed. */
  predicate Describes(c: Corruption, blocks: seq<Block>, valid: HashValidator, j: nat)
    requires j < |blocks|
  {
    c.number == blocks[j].number && (c.fault == InvalidHash <==> !valid(blocks[j].curHash))
  }

  /** The walk succeeds exactly when every block from `i` on is sound, and
    * otherwise reports the first unsound block and why it is unsound. */
  lemma {:induction false} ScanReportsFirstFault(blocks: seq<Block>, valid: HashValidator, i: nat)
    requires i <= |blocks|
    ensures Scan(blocks, valid, i) == Pass <==> forall j :: i <= j < |blocks| ==> SoundAt(blocks, valid, j)
    ensures Scan(blocks, valid, i).Fail? ==>
      exists j :: i <= j < |blocks| && FirstFault(blocks, valid, i, j) && Describes(Scan(blocks, valid, i).error, blocks, valid, j)
    decreases |blocks| - i
  {
    if i < |blocks| && SoundAt(blocks, valid, i) {
      ScanReportsFirstFault(blocks, valid, i + 1);
      assert Scan(blocks, valid, i) == Scan(blocks, valid, i + 1);
      if Scan(blocks, valid, i).Fail? {
        var j :| i + 1 <= j < |blocks| && FirstFault(blocks, valid, i + 1, j)
          && Describes(Scan(blocks, valid, i + 1).error, blocks, valid, j);
        assert FirstFault(blocks, valid, i, j);
      }
    } else if i < |blocks| {
      assert FirstFault(blocks, valid, i, i);
      assert Describes(Scan(blocks, valid, i).error, blocks, valid, i);
    }
  }

  lemma ScanPassesIffCorrect(blocks: seq<Block>, valid: HashValidator)
    ensures Scan(blocks, valid, 0).Pass? <==> Correct(blocks, valid)
  {
    ScanReportsFirstFault(blocks, valid, 0);
  }

  /** A sound block added after a correct chain keeps it correct. */
  lemma CorrectAppend(blocks: seq<Block>, valid: HashValidator, blk: Block)
    requires |blocks| >= 1 && Correct(blocks, valid)
    requires valid(blk.curHash) && blk.prevHash == blocks[|blocks| - 1].curHash
    ensures Correct(blocks + [blk], valid)
  {
    var longer := blocks + [blk];
    forall j | 0 <= j < |longer|
      ensures SoundAt(longer, valid, j)
    {
      if j < |blocks| {
        assert SoundAt(blocks, valid, j);
      }
    }
  }

  /** Every prefix of a correct chain is correct. */
  lemma CorrectPrefix(blocks: seq<Block>, valid: HashValidator, n: nat)
    requires n <= |blocks| && Correct(blocks, valid)
    ensures Correct(blocks[..n], valid)
  {
    forall j | 0 <= j < n
      ensures SoundAt(blocks[..n], valid, j)
    {
      assert SoundAt(blocks, valid, j);
    }
  }

  /** The people taking part in one transaction: the target always, the
    * source unless it is empty (a deposit). */
  function Participants(t: Transaction): set<string>
  {
    {t.target} + (if t.source != "" then {t.source} else {})
  }

  /** What `users()` collects over the given blocks. */
  function UsersOf(blocks: seq<Block>): set<string>
  {
    if blocks == [] then {}
    else UsersOf(blocks[..|blocks| - 1]) + Participants(blocks[|blocks| - 1].transaction)
  }

  /** A name is a user exactly when some block has it as target, or as a
    * non-empty source. */
  lemma {:induction false} UsersOfMembers(blocks: seq<Block>, name: string)
    ensures name in UsersOf(blocks) <==>
      exists i :: 0 <= i < |blocks| && (blocks[i].transaction.target == name
                                        || (blocks[i].transaction.source == name && name != ""))
  {
    if blocks != [] {
      var front := blocks[..|blocks| - 1];
      UsersOfMembers(front, name);
      assert forall i :: 0 <= i < |front| ==> front[i] == blocks[i];
    }
  }

  /** What one transaction does to `user`'s balance: minus the amount when
    * the user is the source, plus the amount when the user is the target. */
  function Contribution(t: Transaction, user: string): (r: int)
    ensures user != t.source && user != t.target ==> r == 0
    ensures t.source == t.target ==> r == 0
    ensures user == t.target && user != t.source ==> r == t.amount
    ensures user == t.source && user != t.target ==> r == -t.amount
  {
    var spent := if user == t.source then t.amount else 0;
    var received := if user == t.target then t.amount else 0;
    received - spent
  }

  /** What `balance(user)` sums over the given blocks. */
  function BalanceOf(blocks: seq<Block>, user: string): int
  {
    if blocks == [] then 0
    else BalanceOf(blocks[..|blocks| - 1], user) + Contribution(blocks[|blocks| - 1].transaction, user)
  }

  /** Total of the amounts the user receives. */
  function Received(blocks: seq<Block>, user: string): int
  {
    if blocks == [] then 0
    else Received(blocks[1..], user) + (if blocks[0].transaction.target == user then blocks[0].transaction.amount else 0)
  }

  /** Total of the amounts the user sends. */
  function Sent(blocks: seq<Block>, user: string): int
  {
    if blocks == [] then 0
    else Sent(blocks[1..], user) + (if blocks[0].transaction.source == user then blocks[0].transaction.amount else 0)
  }

  /** The balance is additive over any split of the chain. */
  lemma {:induction false} BalanceOfConcat(a: seq<Block>, b: seq<Block>, user: string)
    ensures BalanceOf(a + b, user) == BalanceOf(a, user) + BalanceOf(b, user)
    decreases |b|
  {
    if b != [] {
      var b' := b[..|b| - 1];
      assert (a + b)[..|a + b| - 1] == a + b';
      BalanceOfConcat(a, b', user);
    } else {
      assert a + b == a;
    }
  }

  /** The balance is what the user received minus what the user sent. */
  lemma {:induction false} BalanceIsReceivedMinusSent(blocks: seq<Block>, user: string)
    ensures BalanceOf(blocks, user) == Received(blocks, user) - Sent(blocks, user)
  {
    if blocks != [] {
      BalanceIsReceivedMinusSent(blocks[1..], user);
      BalanceOfConcat([blocks[0]], blocks[1..], user);
      assert [blocks[0]] + blocks[1..] == blocks;
      assert [blocks[0]][..0] == [];
    }
  }

  /** A user who appears in no transaction has balance 0. */
  lemma {:induction false} BalanceOfAbsentUser(blocks: seq<Block>, user: string)
    requires forall i :: 0 <= i < |blocks| ==> blocks[i].transaction.source != user && blocks[i].transaction.target != user
    ensures BalanceOf(blocks, user) == 0
  {
    if blocks != [] {
      BalanceOfAbsentUser(blocks[..|blocks| - 1], user);
    }
  }

  /** Taking one block out of the chain takes its contribution out of every
    * balance. */
  lemma BalanceWithout(b: seq<Block>, j: nat, user: string)
    requires j < |b|
    ensures BalanceOf(b, user) == BalanceOf(b[..j] + b[j + 1..], user) + Contribution(b[j].transaction, user)
  {
    var front, back := b[..j], b[j + 1..];
    assert b == front + [b[j]] + back;
    BalanceOfConcat(front, [b[j]], user);
    BalanceOfConcat(front + [b[j]], back, user);
    BalanceOfConcat(front, back, user);
    assert [b[j]][..0] == [];
  }

  /** Removing the same element from two equal multisets of blocks leaves
    * equal multisets. */
  lemma MultisetWithout(a: seq<Block>, b: seq<Block>, j: nat)
    requires |a| > 0 && j < |b| && b[j] == a[|a| - 1]
    requires multiset(a) == multiset(b)
    ensures multiset(a[..|a| - 1]) == multiset(b[..j] + b[j + 1..])
  {
    var x := b[j];
    assert a == a[..|a| - 1] + [x];
    assert b == b[..j] + [x] + b[j + 1..];
    var rest, others := multiset(a[..|a| - 1]), multiset(b[..j] + b[j + 1..]);
    assert rest + multiset{x} == others + multiset{x};
    forall y | true
      ensures rest[y] == others[y]
    {
      assert (rest + multiset{x})[y] == (others + multiset{x})[y];
    }
  }

  /** The balance does not depend on the order of the blocks: any
    * reordering of the same blocks gives every user the same balance. */
  lemma {:induction false} BalanceOfPermutation(a: seq<Block>, b: seq<Block>, user: string)
    requires multiset(a) == multiset(b)
    ensures BalanceOf(a, user) == BalanceOf(b, user)
    decreases |a|
  {
    if a == [] {
      assert |b| == |multiset(b)| == 0;
    } else {
      var x := a[|a| - 1];
      assert x in multiset(b);
      var j :| 0 <= j < |b| && b[j] == x;
      MultisetWithout(a, b, j);
      BalanceOfPermutation(a[..|a| - 1], b[..j] + b[j + 1..], user);
      BalanceWithout(b, j, user);
    }
  }

  // ---------------------------------------------------------------------
  // The walks as written
  // ---------------------------------------------------------------------

  /** The blocks met by starting at `blocks[i]` and following `prevBlock`:
    * `append` links each block to the one before it, and the front block's
    * `prevBlock` stays null. */
  function PrevWalk(blocks: seq<Block>, i: nat): (walk: seq<Block>)
    requires i < |blocks|
    ensures |walk| == i + 1
    ensures forall k :: 0 <= k <= i ==> walk[k] == blocks[i - k]
  {
    if i == 0 then [blocks[0]] else [blocks[i]] + PrevWalk(blocks, i - 1)
  }

  /** Had the walks started at the rear, they would have met every block:
    * following `prevBlock` from the rear gives the whole balance. */
  lemma {:induction false} BalanceOfPrevWalk(blocks: seq<Block>, i: nat, user: string)
    requires i < |blocks|
    ensures BalanceOf(PrevWalk(blocks, i), user) == BalanceOf(blocks[..i + 1], user)
  {
    if i == 0 {
      assert blocks[..1] == [blocks[0]];
    } else {
      BalanceOfPrevWalk(blocks, i - 1, user);
      BalanceOfConcat([blocks[i]], PrevWalk(blocks, i - 1), user);
      assert [blocks[i]][..0] == [];
      assert blocks[..i + 1][..i] == blocks[..i];
    }
  }

  /** `check()` as written: it walks from `front` along `prevBlock`, and
    * `front.prevBlock` is null, so only the front block is examined; the
    * link test is skipped for it because it is the front. */
  function CheckAsWritten(blocks: seq<Block>, valid: HashValidator): Outcome<Corruption>
    requires |blocks| >= 1
  {
    Scan(PrevWalk(blocks, 0), valid, 0)
  }

  /** `users()` as written: the same walk from `front`. */
  function UsersAsWritten(blocks: seq<Block>): set<string>
    requires |blocks| >= 1
  {
    UsersOf(PrevWalk(blocks, 0))
  }

  /** `balance(user)` as written: the same walk from `front`. */
  function BalanceAsWritten(blocks: seq<Block>, user: string): int
    requires |blocks| >= 1
  {
    BalanceOf(PrevWalk(blocks, 0), user)
  }

  /** The first block of `walk` with the given number, or null. */
  function FindNumber(walk: seq<Block>, number: int): (r: Option<Block>)
    ensures r.Some? ==> r.value in walk && r.value.number == number
    ensures r.None? ==> forall b :: b in walk ==> b.number != number
    ensures r.Some? ==> exists k :: 0 <= k < |walk| && r == Some(walk[k]) && forall j :: 0 <= j < k ==> walk[j].number != number
  {
    if walk == [] then None
    else if walk[0].number == number then Some(walk[0])
    else FindNumber(walk[1..], number)
  }

  /** The new `rear` that `removeLast()` as written picks on a chain of two
    * or more blocks: it walks from `front` along `prevBlock` looking for the
    * number one below the rear's, and takes null when the walk runs out. */
  function RemoveLastAsWritten(blocks: seq<Block>): Option<Block>
    requires |blocks| >= 2
  {
    FindNumber(PrevWalk(blocks, 0), blocks[|blocks| - 1].number - 1)
  }

  /** As written, `check` looks at the front block alone: a chain whose
    * second block fails the validator still checks out. */
  lemma CheckAsWrittenSeesOnlyFront(blocks: seq<Block>, valid: HashValidator)
    requires |blocks| >= 1
    ensures CheckAsWritten(blocks, valid).Pass? <==> valid(blocks[0].curHash)
    ensures |blocks| >= 2 && valid(blocks[0].curHash) && !valid(blocks[1].curHash) ==>
      CheckAsWritten(blocks, valid).Pass? && Scan(blocks, valid, 0).Fail?
  {
    ScanPassesIffCorrect(blocks, valid);
    ScanPassesIffCorrect(PrevWalk(blocks, 0), valid);
    if |blocks| >= 2 && !valid(blocks[1].curHash) {
      assert !SoundAt(blocks, valid, 1);
    }
  }

  /** As written, `users` and `balance` see the genesis transaction only:
    * the users are {""} and every balance is 0, whatever was appended. */
  lemma AsWrittenAggregatesSeeOnlyGenesis(blocks: seq<Block>, user: string)
    requires |blocks| >= 1 && IsGenesis(blocks[0])
    ensures UsersAsWritten(blocks) == {""}
    ensures BalanceAsWritten(blocks, user) == 0
  {
    var walk := PrevWalk(blocks, 0);
    assert walk == [blocks[0]];
    assert walk[..0] == [];
    assert UsersOf(walk) == UsersOf([]) + Participants(GenesisTransaction);
    assert BalanceOf(walk, user) == BalanceOf([], user) + Contribution(GenesisTransaction, user);
  }

  /** On a chain of the genesis block alone, the as-written `check`, `users`
    * and `balance` agree with the intended ones. As written, `Hash.equals`
    * never answers, so `append` never gets past its link test and this is the
    * only chain the code builds. */
  lemma OneBlockAgrees(blocks: seq<Block>, valid: HashValidator, user: string)
    requires |blocks| == 1
    ensures CheckAsWritten(blocks, valid) == Scan(blocks, valid, 0)
    ensures UsersAsWritten(blocks) == UsersOf(blocks)
    ensures BalanceAsWritten(blocks, user) == BalanceOf(blocks, user)
  {
    assert PrevWalk(blocks, 0) == blocks;
  }

  /** As written, `removeLast` on a chain of three or more blocks numbered
    * as `mine` numbers them sets `rear` to null. */
  lemma RemoveLastAsWrittenLosesRear(blocks: seq<Block>)
    requires |blocks| >= 3
    requires forall i :: 0 <= i < |blocks| ==> blocks[i].number == i
    ensures RemoveLastAsWritten(blocks) == None
  {
  }

  // ---------------------------------------------------------------------
  // The chain object
  // ---------------------------------------------------------------------

  class BlockChain {
    /** The blocks from `front` to `rear`. */
    var blocks: seq<Block>
    /** `size`: the number of blocks. */
    var size: int
    const validator: HashValidator
    const ext: External

    ghost predicate Valid()
      reads this
    {
      size == |blocks| >= 1 && IsGenesis(blocks[0])
    }

    function Front(): Block
      reads this
      requires Valid()
    {
      blocks[0]
    }

    function Rear(): Block
      reads this
      requires Valid()
    {
      blocks[|blocks| - 1]
    }

    /** `new BlockChain(check)`: a chain holding the genesis block, mined
      * under `check` as the doc comment of the validator-taking Block
      * constructor promises. */
    constructor (ext: External, check: HashValidator)
      requires Minable(ext, 0, GenesisTransaction, EmptyHash, check)
      ensures Valid()
      ensures this.ext == ext && validator == check
      ensures size == 1 && Front() == Rear()
      ensures blocks[0] == WithNonce(ext, 0, GenesisTransaction, EmptyHash, blocks[0].nonce)
      ensures 0 <= blocks[0].nonce < 256
      ensures forall k :: 0 <= k < blocks[0].nonce ==> !check(WithNonce(ext, 0, GenesisTransaction, EmptyHash, k).curHash)
      ensures Correct(blocks, validator)
    {
      var genesis := MineBlock(ext, 0, GenesisTransaction, EmptyHash, check);
      this.ext := ext;
      validator := check;
      blocks := [genesis];
      size := 1;
    }

    /** `validateBlock(blk)`: refuses a block whose hash fails the validator,
      * then one that does not hold the rear's hash. */
    method ValidateBlock(blk: Block) returns (r: Outcome<AppendError>)
      requires Valid()
      ensures r == Pass <==> validator(blk.curHash) && blk.prevHash == Rear().curHash
      ensures r == Fail(InvalidBlock) <==> !validator(blk.curHash)
      ensures r == Fail(BrokenLink) <==> validator(blk.curHash) && blk.prevHash != Rear().curHash
    {
      if !validator(blk.curHash) {
        return Fail(InvalidBlock);
      }
      if !blk.prevHash.Equals(Some(Rear().curHash)) {
        return Fail(BrokenLink);
      }
      return Pass;
    }

    /** `mine(t)`: the first block, by ascending nonce, that could follow the
      * rear; the chain is left as it is. */
    method Mine(t: Transaction) returns (b: Block)
      requires Valid()
      requires Minable(ext, size, t, Rear().curHash, validator)
      ensures b.number == size && b.transaction == t && b.prevHash == Rear().curHash
      ensures b == WithNonce(ext, size, t, Rear().curHash, b.nonce)
      ensures validator(b.curHash)
      ensures 0 <= b.nonce < 256
      ensures forall k :: 0 <= k < b.nonce ==> !validator(WithNonce(ext, size, t, Rear().curHash, k).curHash)
    {
      b := MineBlock(ext, size, t, Rear().curHash, validator);
    }

    /** `getSize()`. */
    method GetSize() returns (n: int)
      requires Valid()
      ensures n == |blocks| && n >= 1
    {
      n := size;
    }

    /** `getHash()`: the hash of the rear block. */
    method GetHash() returns (h: Hash)
      requires Valid()
      ensures h == blocks[|blocks| - 1].curHash
    {
      h := Rear().curHash;
    }

    /** `append(blk)`: a block `validateBlock` accepts becomes the new rear;
      * otherwise the chain is unchanged and the error is reported. */
    method Append(blk: Block) returns (r: Outcome<AppendError>)
      requires Valid()
      modifies this
      ensures Valid()
      ensures r == Pass <==> validator(blk.curHash) && blk.prevHash == old(Rear()).curHash
      ensures r == Fail(InvalidBlock) <==> !validator(blk.curHash)
      ensures r == Fail(BrokenLink) <==> validator(blk.curHash) && blk.prevHash != old(Rear()).curHash
      ensures r.Pass? ==> blocks == old(blocks) + [blk] && size == old(size) + 1 && Rear() == blk
      ensures r.Fail? ==> blocks == old(blocks) && size == old(size)
      ensures Correct(old(blocks), validator) ==> Correct(blocks, validator)
    {
      r := ValidateBlock(blk);
      if r.Pass? {
        if Correct(blocks, validator) {
          CorrectAppend(blocks, validator, blk);
        }
        blocks := blocks + [blk];
        size := size + 1;
      }
    }

    /** `removeLast()`: refuses to remove the genesis block; otherwise the
      * rear's predecessor becomes the rear. */
    method RemoveLast() returns (removed: bool)
      requires Valid()
      modifies this
      ensures Valid()
      ensures removed <==> old(size) > 1
      ensures removed ==> blocks == old(blocks)[..old(size) - 1] && size == old(size) - 1
                          && Rear() == old(blocks)[old(size) - 2]
      ensures !removed ==> blocks == old(blocks) && size == old(size)
      ensures Correct(old(blocks), validator) ==> Correct(blocks, validator)
    {
      if size == 1 {
        return false;
      }
      if Correct(blocks, validator) {
        CorrectPrefix(blocks, validator, size - 1);
      }
      blocks := blocks[..size - 1];
      size := size - 1;
      removed := true;
    }

    /** `check()`: walks from front to rear and reports the first block whose
      * hash fails the validator or whose previous hash is not its
      * predecessor's hash. */
    method Check() returns (r: Outcome<Corruption>)
      requires Valid()
      ensures r == Scan(blocks, validator, 0)
    {
      var i := 0;
      while i < |blocks|
        invariant 0 <= i <= |blocks|
        invariant Scan(blocks, validator, i) == Scan(blocks, validator, 0)
      {
        var current := blocks[i];
        if !validator(current.curHash) {
          return Fail(Corruption(current.number, InvalidHash));
        }
        if i > 0 && !current.prevHash.Equals(Some(blocks[i - 1].curHash)) {
          return Fail(Corruption(current.number, BadPrevHash));
        }
        i := i + 1;
      }
      return Pass;
    }

    /** `isCorrect()`: true exactly when `check()` completes. */
    method IsCorrect() returns (ok: bool)
      requires Valid()
      ensures ok <==> Correct(blocks, validator)
    {
      var r := Check();
      ScanPassesIffCorrect(blocks, validator);
      ok := r.Pass?;
    }

    /** `users()`: every target and every non-empty source. */
    method Users() returns (users: set<string>)
      requires Valid()
      ensures users == UsersOf(blocks)
    {
      users := {};
      var i := 0;
      while i < |blocks|
        invariant 0 <= i <= |blocks|
        invariant users == UsersOf(blocks[..i])
      {
        var t := blocks[i].transaction;
        if t.source != "" {
          users := users + {t.source};
        }
        users := users + {t.target};
        assert blocks[..i + 1][..i] == blocks[..i];
        i := i + 1;
      }
      assert blocks[..i] == blocks;
    }

    /** `balance(user)`: received minus sent over every block. */
    method Balance(user: string) returns (balance: int)
      requires Valid()
      ensures balance == BalanceOf(blocks, user)
    {
      balance := 0;
      var i := 0;
      while i < |blocks|
        invariant 0 <= i <= |blocks|
        invariant balance == BalanceOf(blocks[..i], user)
      {
        var t := blocks[i].transaction;
        if user == t.source {
          balance := balance - t.amount;
        }
        if user == t.target {
          balance := balance + t.amount;
        }
        assert blocks[..i + 1][..i] == blocks[..i];
        i := i + 1;
      }
      assert blocks[..i] == blocks;
    }

    /** `blocks()`: the blocks met following `nextBlock` from the front. */
    method Blocks() returns (all: seq<Block>)
      requires Valid()
      ensures |all| == size
      ensures forall i :: 0 <= i < |all| ==> all[i] == blocks[i]
    {
      all := [];
      var i := 0;
      while i < |blocks|
        invariant 0 <= i <= |blocks|
        invariant all == blocks[..i]
      {
        all := all + [blocks[i]];
        i := i + 1;
      }
    }

    /** `iterator()`: the transactions met following `nextBlock` from the
      * front. */
    method Iterator() returns (all: seq<Transaction>)
      requires Valid()
      ensures |all| == size
      ensures forall i :: 0 <= i < |all| ==> all[i] == blocks[i].transaction
    {
      all := [];
      var i := 0;
      while i < |blocks|
        invariant 0 <= i <= |blocks|
        invariant |all| == i
        invariant forall k :: 0 <= k < i ==> all[k] == blocks[k].transaction
      {
        all := all + [blocks[i].transaction];
        i := i + 1;
      }
    }
  }

  /** The front end's mine-then-append round: mine a transaction, rebuild
    * the block from the reported nonce with the nonce constructor, and
    * append it; the append always succeeds. */
  method MineThenAppend(chain: BlockChain, t: Transaction) returns (b: Block, r: Outcome<AppendError>)
    requires chain.Valid()
    requires Minable(chain.ext, chain.size, t, chain.Rear().curHash, chain.validator)
    modifies chain
    ensures chain.Valid()
    ensures r == Pass
    ensures chain.blocks == old(chain.blocks) + [b] && chain.Rear() == b
    ensures b.transaction == t && b.number == old(chain.size)
  {
    var mined := chain.Mine(t);
    var n := chain.GetSize();
    var h := chain.GetHash();
    b := WithNonce(chain.ext, n, t, h, mined.nonce);
    r := chain.Append(b);
  }
}
