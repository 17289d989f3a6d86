/**
 * The front end's validator (BlockChainUI.java) and worked examples of the
 * chain's behaviour under a small stand-in digest.
 */
module Scenarios {
  import opened Wrappers
  import opened Hashes
  import opened Transactions
  import opened Blocks
  import opened Chains

  /** The front end's validator: the hash has at least `k` bytes and the
    * first `k` of them are zero. */
  function LeadingZeroBytes(k: nat): HashValidator
  {
    (h: Hash) => h.Length() >= k && forall i :: 0 <= i < k ==> h.bytes[i] == 0
  }

  /** A stand-in for SHA-256 whose output is [0] exactly when the input
    * ends in the byte 1, with transactions serialised as no bytes. Under
    * `LeadingZeroBytes(1)` every block therefore validates at nonce 1 and
    * at no nonce whose low byte is 0. */
  function ToyExternal(): External
  {
    External((s: seq<byte>) => if |s| > 0 && s[|s| - 1] == 1 then [0] else [1],
             (t: Transaction) => [])
  }

  /** Under the stand-in digest and `LeadingZeroBytes(1)`, exactly the
    * nonces with low byte 1 validate, so every block can be mined. */
  lemma ToyHashes(num: int, t: Transaction, prev: Hash, nonce: int)
    ensures LeadingZeroBytes(1)(WithNonce(ToyExternal(), num, t, prev, nonce).curHash) <==> nonce % 256 == 1
    ensures Minable(ToyExternal(), num, t, prev, LeadingZeroBytes(1))
  {
    var ext := ToyExternal();
    var b := WithNonce(ext, num, t, prev, nonce);
    assert b.Bytes(ext)[|b.Bytes(ext)| - 1] == LowByte(nonce);
    assert b.Bytes(ext) + [] == b.Bytes(ext);
    var one := WithNonce(ext, num, t, prev, 1);
    assert one.Bytes(ext)[|one.Bytes(ext)| - 1] == 1;
    assert one.Bytes(ext) + [] == one.Bytes(ext);
    assert LeadingZeroBytes(1)(one.curHash);
  }

  /** As written, the validator-taking constructor can yield a block that
    * fails its own validator although mining would have found a nonce; the
    * genesis block of a fresh chain is such a block, so `isCorrect()` on a
    * fresh chain answers false. */
  lemma UnminedGenesisFailsValidator()
    ensures var ext, check := ToyExternal(), LeadingZeroBytes(1);
      var genesis := WithValidatorAsWritten(ext, 0, GenesisTransaction, EmptyHash, check);
      && !check(genesis.curHash)
      && Minable(ext, 0, GenesisTransaction, EmptyHash, check)
      && CheckAsWritten([genesis], check).Fail?
  {
    ToyHashes(0, GenesisTransaction, EmptyHash, 0);
  }

  /** The aggregates over a genesis block, a deposit of 100 to alice and a
    * transfer of 30 from alice to bob. */
  lemma AliceAndBobAggregates(g: Block, b1: Block, b2: Block)
    requires IsGenesis(g)
    requires b1.transaction == Transaction("", "alice", 100)
    requires b2.transaction == Transaction("alice", "bob", 30)
    ensures BalanceOf([g, b1, b2], "alice") == 70
    ensures BalanceOf([g, b1, b2], "bob") == 30
    ensures UsersOf([g, b1, b2]) == {"", "alice", "bob"}
  {
    assert [g, b1, b2][..2] == [g, b1] && [g, b1][..1] == [g] && [g][..0] == [];
    assert UsersOf([g]) == {""};
    assert UsersOf([g, b1]) == {"", "alice"};
    assert Contribution(b1.transaction, "alice") == 100 && Contribution(b2.transaction, "alice") == -30;
    assert Contribution(b1.transaction, "bob") == 0 && Contribution(b2.transaction, "bob") == 30;
    assert Contribution(g.transaction, "alice") == 0 && Contribution(g.transaction, "bob") == 0;
    assert BalanceOf([g], "alice") == BalanceOf([], "alice") + Contribution(g.transaction, "alice");
    assert BalanceOf([g], "bob") == BalanceOf([], "bob") + Contribution(g.transaction, "bob");
    assert BalanceOf([g, b1], "alice") == 100 && BalanceOf([g, b1], "bob") == 0;
  }

  /** Under any digest and validator that let every block be mined: deposit
    * 100 to alice, then transfer 30 from alice to bob, each block mined and
    * appended as the front end does. */
  method AliceAndBob(ext: External, check: HashValidator) returns (alice: int, bob: int, users: set<string>)
    requires forall num, t, prev :: Minable(ext, num, t, prev, check)
    ensures alice == 70 && bob == 30
    ensures users == {"", "alice", "bob"}
  {
    var chain := new BlockChain(ext, check);

    var deposit := Transaction("", "alice", 100);
    var b1, r1 := MineThenAppend(chain, deposit);
    ghost var g := chain.blocks[0];
    assert chain.blocks == [g, b1];

    var transfer := Transaction("alice", "bob", 30);
    var b2, r2 := MineThenAppend(chain, transfer);

    assert chain.blocks == [g, b1, b2];
    AliceAndBobAggregates(g, b1, b2);
    alice := chain.Balance("alice");
    bob := chain.Balance("bob");
    users := chain.Users();
  }

  /** A block whose nonce fails the validator is refused and the chain keeps
    * its length. */
  method TamperedBlockIsRefused(t: Transaction) returns (tampered: Outcome<AppendError>, before: int, after: int)
    ensures tampered == Fail(InvalidBlock) && after == before == 1
  {
    var ext, check := ToyExternal(), LeadingZeroBytes(1);
    ToyHashes(0, GenesisTransaction, EmptyHash, 0);
    var chain := new BlockChain(ext, check);
    before := chain.GetSize();
    var h := chain.GetHash();
    ToyHashes(before, t, h, 0);
    var forged := WithNonce(ext, before, t, h, 0);
    tampered := chain.Append(forged);
    after := chain.GetSize();
  }
}
