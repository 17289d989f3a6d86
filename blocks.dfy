/**
 * Blocks (Block.java): a block number, a transaction, the hash of the
 * previous block and a nonce, sealed by a hash computed when the block is
 * constructed.
 *
 * Every field of a Java Block except `prevBlock` is assigned only by the
 * constructors, so a block is modelled as a value; `prevBlock`, which
 * `BlockChain.append` sets, is the block's position in the chain
 * (see module Chains).
 */
module Blocks {
  import opened Wrappers
  import opened Hashes
  import opened Transactions

  /** The two pieces the block code calls but does not define: SHA-256
    * (`MessageDigest.getInstance("sha-256")`) and `Transaction.getBytes`,
    * which Transaction.java does not declare. */
  datatype External = External(sha256: seq<byte> -> seq<byte>, txBytes: Transaction -> seq<byte>)

  /** `HashValidator.isValid`: the proof-of-work test a hash must pass. */
  type HashValidator = Hash -> bool

  /** Java's narrowing cast `(byte) n`: the low eight bits of `n`. */
  function LowByte(n: int): byte
  {
    (n % 256) as byte
  }

  /** `k` bytes of `n` in base 256, most significant first: the low `k`
    * bytes of `n`. */
  function BaseBytes(n: nat, k: nat): (r: seq<byte>)
    ensures |r| == k
  {
    if k == 0 then [] else BaseBytes(n / 256, k - 1) + [(n % 256) as byte]
  }

  function Pow256(k: nat): (r: nat)
    ensures r > 0
  {
    if k == 0 then 1 else 256 * Pow256(k - 1)
  }

  /** Below `256^k`, distinct numbers have distinct `k`-byte forms. */
  lemma {:induction false} BaseBytesInjective(n: nat, m: nat, k: nat)
    requires n < Pow256(k) && m < Pow256(k)
    requires BaseBytes(n, k) == BaseBytes(m, k)
    ensures n == m
  {
    if k > 0 {
      var bn, bm := BaseBytes(n, k), BaseBytes(m, k);
      assert bn[..k - 1] == BaseBytes(n / 256, k - 1);
      assert bm[..k - 1] == BaseBytes(m / 256, k - 1);
      assert bn[k - 1] == (n % 256) as byte && bm[k - 1] == (m % 256) as byte;
      BaseBytesInjective(n / 256, m / 256, k - 1);
    }
  }

  /** The eight bytes of a Java `long`, most significant first, as
    * `DataOutputStream.writeLong` writes them; a negative `n` is taken
    * modulo 2^64, which is its two's complement. */
  function LongBytes(n: int): (r: seq<byte>)
    ensures |r| == 8
  {
    BaseBytes(n % 0x1_0000_0000_0000_0000, 8)
  }

  /** Distinct `long` values have distinct eight-byte forms. */
  lemma LongBytesInjective(n: int, m: int)
    requires 0 <= n < 0x1_0000_0000_0000_0000 && 0 <= m < 0x1_0000_0000_0000_0000
    requires LongBytes(n) == LongBytes(m)
    ensures n == m
  {
    Pow256Eight();
    assert n % 0x1_0000_0000_0000_0000 == n && m % 0x1_0000_0000_0000_0000 == m;
    BaseBytesInjective(n, m, 8);
  }

  lemma Pow256Eight()
    ensures Pow256(8) == 0x1_0000_0000_0000_0000
  {
    assert Pow256(4) == 0x1_0000_0000;
  }

  datatype Block = Block(number: int, transaction: Transaction, prevHash: Hash, nonce: int, curHash: Hash) {

    /** `getBytes()`: the low byte of the number, the transaction's bytes,
      * the previous hash's bytes and the low byte of the nonce. */
    function Bytes(ext: External): (r: seq<byte>)
      ensures |r| == 2 + |ext.txBytes(transaction)| + |prevHash.bytes|
      ensures r[0] as int == number % 256 && r[|r| - 1] as int == nonce % 256
    {
      [LowByte(number)] + ext.txBytes(transaction) + prevHash.bytes + [LowByte(nonce)]
    }

    /** `calculateHash()`: SHA-256 of this block's bytes, followed by the
      * predecessor's bytes when `prevBlock` is set. */
    function CalculateHash(ext: External, prevBlock: Option<Block>): (r: Hash)
      ensures prevBlock.None? ==> r.bytes == ext.sha256(Bytes(ext))
      ensures prevBlock.Some? ==> r.bytes == ext.sha256(Bytes(ext) + prevBlock.value.Bytes(ext))
    {
      if prevBlock.Some? then Hash(ext.sha256(Bytes(ext) + prevBlock.value.Bytes(ext)))
      else Hash(ext.sha256(Bytes(ext)))
    }

    /** The layout `getBytes()` evidently intends: as `Bytes`, but with all
      * eight bytes of the `long` nonce in place of its low byte. */
    function WideBytes(ext: External): (r: seq<byte>)
      ensures |r| == 9 + |ext.txBytes(transaction)| + |prevHash.bytes|
      ensures r[..|r| - 8] == Bytes(ext)[..|Bytes(ext)| - 1]
      ensures r[|r| - 8..] == LongBytes(nonce)
    {
      [LowByte(number)] + ext.txBytes(transaction) + prevHash.bytes + LongBytes(nonce)
    }

    /** The stored hash is what `computeHash()` gives while `prevBlock` is
      * still null, as it is inside both constructors. */
    predicate Sealed(ext: External)
    {
      curHash == CalculateHash(ext, None)
    }
  }

  /** Between its first and last byte, `getBytes()` holds the transaction's
    * bytes and then the previous hash's bytes. */
  lemma BytesLayout(ext: External, b: Block)
    ensures var bytes, tx, prev := b.Bytes(ext), ext.txBytes(b.transaction), b.prevHash.bytes;
      && bytes[1..1 + |tx|] == tx
      && bytes[1 + |tx|..1 + |tx| + |prev|] == prev
  {
    var bytes, tx, prev := b.Bytes(ext), ext.txBytes(b.transaction), b.prevHash.bytes;
    assert bytes == [LowByte(b.number)] + tx + prev + [LowByte(b.nonce)];
    assert bytes[1..1 + |tx|] == tx;
    assert bytes[1 + |tx|..1 + |tx| + |prev|] == prev;
  }

  /** For transactions whose bytes have the same length, two blocks give the
    * same `getBytes()` exactly when they agree on the low bytes of number and
    * nonce, on the transaction's bytes and on the previous hash. */
  lemma BytesInjective(ext: External, b: Block, c: Block)
    requires |ext.txBytes(b.transaction)| == |ext.txBytes(c.transaction)|
    ensures b.Bytes(ext) == c.Bytes(ext) <==>
      && b.number % 256 == c.number % 256
      && ext.txBytes(b.transaction) == ext.txBytes(c.transaction)
      && b.prevHash == c.prevHash
      && b.nonce % 256 == c.nonce % 256
  {
    var tb, tc := ext.txBytes(b.transaction), ext.txBytes(c.transaction);
    BytesLayout(ext, b);
    BytesLayout(ext, c);
    if b.Bytes(ext) == c.Bytes(ext) {
      assert tb == tc;
      assert b.prevHash.bytes == c.prevHash.bytes;
    }
  }

  /** `new Block(num, transaction, prevHash, nonce)`: stores the four fields,
    * then `computeHash()` with no predecessor. */
  function WithNonce(ext: External, num: int, tx: Transaction, prevHash: Hash, nonce: int): (b: Block)
    ensures b.number == num && b.transaction == tx && b.prevHash == prevHash && b.nonce == nonce
    ensures b.Sealed(ext)
  {
    var fields := Block(num, tx, prevHash, nonce, Hash([]));
    fields.(curHash := fields.CalculateHash(ext, None))
  }

  /** `new Block(num, transaction, prevHash, check)` as written: the nonce
    * keeps Java's default 0 and `check` is never consulted. */
  function WithValidatorAsWritten(ext: External, num: int, tx: Transaction, prevHash: Hash, check: HashValidator): (b: Block)
    ensures b == WithNonce(ext, num, tx, prevHash, 0)
  {
    var fields := Block(num, tx, prevHash, 0, Hash([]));
    fields.(curHash := fields.CalculateHash(ext, None))
  }

  /** Only the low bytes of the number and the nonce reach the digest, so
    * numbers and nonces that agree modulo 256 give the same hash. */
  lemma HashSeesOnlyLowBytes(ext: External, num1: int, num2: int, tx: Transaction, prevHash: Hash, nonce1: int, nonce2: int)
    requires num1 % 256 == num2 % 256 && nonce1 % 256 == nonce2 % 256
    ensures WithNonce(ext, num1, tx, prevHash, nonce1).curHash == WithNonce(ext, num2, tx, prevHash, nonce2).curHash
  {
    assert WithNonce(ext, num1, tx, prevHash, nonce1).Bytes(ext) == WithNonce(ext, num2, tx, prevHash, nonce2).Bytes(ext);
  }

  /** Some nonce gives a block whose hash passes `check`: exactly the
    * condition under which the nonce search ends. */
  ghost predicate Minable(ext: External, num: int, tx: Transaction, prevHash: Hash, check: HashValidator)
  {
    exists nonce: int :: check(WithNonce(ext, num, tx, prevHash, nonce).curHash)
  }

  /** A search needs at most the 256 nonces 0..255: if any nonce passes,
    * one of those does. */
  lemma MinableWithinFirst256(ext: External, num: int, tx: Transaction, prevHash: Hash, check: HashValidator)
    ensures Minable(ext, num, tx, prevHash, check)
        <==> exists nonce :: 0 <= nonce < 256 && check(WithNonce(ext, num, tx, prevHash, nonce).curHash)
  {
    if Minable(ext, num, tx, prevHash, check) {
      var n: int :| check(WithNonce(ext, num, tx, prevHash, n).curHash);
      HashSeesOnlyLowBytes(ext, num, num, tx, prevHash, n, n % 256);
    }
  }

  /** The proof-of-work search: tries nonce 0, 1, 2, ... and returns the
    * first block whose hash passes `check`. This is the do-while loop of
    * `BlockChain.mine`, and what the doc comment of
    * `new Block(num, transaction, prevHash, check)` promises. */
  method MineBlock(ext: External, num: int, tx: Transaction, prevHash: Hash, check: HashValidator) returns (b: Block)
    requires Minable(ext, num, tx, prevHash, check)
    ensures b == WithNonce(ext, num, tx, prevHash, b.nonce)
    ensures check(b.curHash)
    ensures 0 <= b.nonce < 256
    ensures forall k :: 0 <= k < b.nonce ==> !check(WithNonce(ext, num, tx, prevHash, k).curHash)
  {
    MinableWithinFirst256(ext, num, tx, prevHash, check);
    ghost var goal :| 0 <= goal < 256 && check(WithNonce(ext, num, tx, prevHash, goal).curHash);
    var nonce := 0;
    b := WithNonce(ext, num, tx, prevHash, nonce);
    nonce := nonce + 1;
    while !check(b.curHash)
      invariant 1 <= nonce <= goal + 1
      invariant b == WithNonce(ext, num, tx, prevHash, nonce - 1)
      invariant forall k :: 0 <= k < nonce - 1 ==> !check(WithNonce(ext, num, tx, prevHash, k).curHash)
      decreases goal + 1 - nonce
    {
      b := WithNonce(ext, num, tx, prevHash, nonce);
      nonce := nonce + 1;
    }
  }

  /** With the whole nonce written, blocks that differ only in their nonce,
    * within the range of a `long`, have different digest inputs, so the
    * search is no longer limited to 256 candidates. */
  lemma WideBytesSeparateNonces(ext: External, b: Block, c: Block)
    requires b.number == c.number && b.transaction == c.transaction && b.prevHash == c.prevHash
    requires 0 <= b.nonce < 0x1_0000_0000_0000_0000 && 0 <= c.nonce < 0x1_0000_0000_0000_0000
    requires b.nonce != c.nonce
    ensures b.WideBytes(ext) != c.WideBytes(ext)
  {
    if b.WideBytes(ext) == c.WideBytes(ext) {
      var wb, wc := b.WideBytes(ext), c.WideBytes(ext);
      assert wb[|wb| - 8..] == wc[|wc| - 8..];
      LongBytesInjective(b.nonce, c.nonce);
    }
  }
}
