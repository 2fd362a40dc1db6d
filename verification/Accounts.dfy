/** Account addresses and account contents. */
module Accounts {
  import opened Words

  /** A 32-byte account address. */
  type Pubkey = s: seq<byte> | |s| == 32 witness seq(32, _ => 0)

  function DefaultPubkey(): Pubkey {
    seq(32, _ => 0)
  }

  /** An account as the simulator's callers see it. */
  datatype Account = Account(lamports: u64, data: seq<byte>, owner: Pubkey, executable: bool, rentEpoch: u64)

  /** Why the accounts of a transaction cannot be loaded. */
  datatype TransactionError = AccountNotFound | ProgramAccountNotFound | CallChainTooDeep
}
