# A verified model of the dexmd node

dexmd is the node of a sharded proof-of-stake coin. This project models its ledger, its validator book,
its Casper voting, its n-party signatures and its message handling in Dafny, and proves what they keep
over every input and every run. Code that changes state step by step is a method with loops, or a class
with fields, proved equal to a specification function; the theorems are lemmas about those functions.

| module | what it models |
|---|---|
| `Overflow`, `Radix`, `Sequences`, `MapSums`, `Sets`, `Wrappers` | 64-bit arithmetic, positional numbers, sums, set sizes |
| `Base58`, `Address` | the base-58 encoder and the wallet addresses built on it |
| `Transactions`, `Processing`, `Pool`, `Import` | the ledger: a block is selected, replayed, imported |
| `Book`, `Choice`, `Staking` | the validator book, the choice by stake, runs of bonds and withdrawals |
| `Lifecycle` | a block from its generation to its import |
| `Chain` | the mutable chain and book, and the methods that change them |
| `Schnorr` | n-party Schnorr signatures over any cyclic group |
| `Casper` | checkpoint votes: ancestry, counting, quorums |
| `Arrivals` | blocks that arrive out of order |
| `Merkle` | receipt proofs, and paying the transactions that come with them, once |
| `Gossip` | forwarding with a TTL, and the window of known messages |

## What the proofs found

Each line is a case where the code does not do what its name or comments suggest. The code is modelled
as it is; a lemma gives an input, and where there is a condition it is exact.

- A transaction from an account to itself adds the amount to the balance, because import reads the
  recipient before it writes the sender (`Import.SelfTransferMints`).
- The balance check acts only when amount + gas does not wrap, so a sum that wraps passes: it can mint
  (`Import.WrappedTransferMints`) or take from the recipient with the supply unchanged but for the gas
  (`Import.WrappedTransferTakes`).
- So the comment at networking/import.go:427, that validation makes overflow checks unnecessary, holds of a
  block, below a supply of 2^64, if and only if no applied transaction's sum wraps and none pays its own
  sender (`Import.ValidationMakesImportExactIff`; `Import.CheckedTransferIsExactIff` for one transfer). About the
  supply alone: a block without wraps takes exactly its gas out of it if and only if no transaction pays its
  own sender (`Import.SupplyFallsByGasIff`); `Import.TransferTakesGasIff` is the condition for one transfer.
- Validation compares a transaction with earlier blocks only. Two blocks of one chain never apply the same
  one (`Staking.NeverInTwoBlocks`); one block applies it twice if and only if it lists it twice and, if it stakes,
  its sender is not registered before the second (`Import.PaidTwiceIff`; an input: `Staking.RepeatedInOneBlock`).
- `IsVoteValid` counts down with an unsigned integer that is always `>= 0`. `Casper.PastGenesisIff` says
  exactly when the walk passes height zero, where the source's counter wraps;
  `Casper.UnknownSourcePassesGenesis` is such a vote.
- Line 103 of networking/broadcast.go hashes the previous block again where line 101 prepared the current
  one, so both keys are the parent's: no block is ever recorded (`Arrivals.SameKeysRecordNothing`). The other
  theorems of `Arrivals` are about the intended key. (The two hashes would also have to be nested equally
  often: line 99 hashes a hash, line 102 the block.)
- With the intended key, the block that closes a gap gets no height and the ones above it get one too
  little; the recorded heights are the depths if and only if no gap ever closes
  (`Arrivals.InSyncIffNoGapCloses`, `Arrivals.ClosedGapLosesBlocks`).
- The selection asks that the sender be a validator, and a validator's staking transaction is skipped, so
  a block the node generates never registers a new validator (`Lifecycle.GeneratedBlockKeepsBook`).
- The genesis validators are registered with a transaction that has no sender (networking/import.go:317-318).
  Unless the address of no bytes is theirs they can never withdraw (`Staking.GenesisStuckIff`), whatever happens
  afterwards (`Staking.GenesisStakeStays`).
- The mempool files a transaction under the hash of the bytes it came in (blockchain/pool.go:53-62), validation
  looks it up under the hash of its own encoding, and a signature that is merely wrong passes the mempool's
  filter (blockchain/processing.go:315-318). So a node can generate a block that it rejects itself
  (`Pool.OtherBytesAreSelectedAgain`); `Pool.GeneratedBlockIsValidIff` says exactly when it does not.
- A receipt proof is checked against the receipt it carries; the transaction beside it is paid, on every
  shard of interest, and nothing compares the two. With gas to pay, what is moved is what was proved if and
  only if there is one interest and the transaction's own receipt is the proved one
  (`Merkle.PaysWhatItProvesIff`). Inputs: another transaction is paid (`Merkle.OtherTransactionIsPaid`), the
  right one is paid twice (`Merkle.ReceiptIsPaidTwice`), nothing is paid (`Merkle.NoInterestsBurn`).
- A call that fails on a later shard keeps what it has paid (`Merkle.FailingCallPays`); it leaves all balances
  as they were if and only if the first shard already cannot pay (`Merkle.FailureLeavesBalancesIff`).
- A vote's target hash is never read, so votes for different targets are counted together
  (`Casper.TargetsAreIgnored`, `Casper.DifferentTargetsAgree`), and its source height is compared with the round's
  only. `Casper.EligibleVoteIsTrueIff` says when a counted vote is true of the blocks it names.
- A receipt is burned before the balances are checked, so a proof that could not be paid never pays later
  (`Merkle.UnpaidLeafIsSpent`).
- The checksum of an address leaves out its first six characters (`Address.HeaderUnchecked`).
- The comment on `AddValidator` says that a second registration overwrites the stake; the code keeps the
  first one, and so does the model.

## What is assumed

- SHA-256, RIPEMD-160, CRC-32, ECDSA, protobuf, point encoding, Merkle roots, encoded sizes and seeded
  random numbers are parameters. The ledger relies only on what `Transactions.Lawful` lists, and the wallet
  package's own functions are proved to meet it (`Transactions.NodeCalls`). No hash is assumed injective: `Merkle`
  proves "the same, or here is a collision", and `Casper.NoCollision` asks only that blocks of this chain with
  the same hash are the same.
- Import's theorems assume that the money supply, with what accounts pay themselves, is below 2^64. Those
  on supply, wealth and the replay also assume that no applied transaction's amount + gas wraps;
  `Import.SupplyModulo` assumes neither, and `Import.ValidationMakesImportExactIff` has it as its condition.
- What import leaves in the database under a transaction's key (the block index as text) never decodes
  as a transaction; what `AddMempoolTransaction` leaves always does. Several byte strings may decode to one
  transaction.
- Databases never fail except for a missing key.

## Model

| member | source | states |
|---|---|---|
| Overflow.AddU64O | util/overflow.go:12-14 | the flag computed from the wrapped sum is true exactly when the true sum fits |
| Overflow.SubU64O | util/overflow.go:15-17 | the flag is true exactly when there is no borrow |
| Base58.DecodeEncode | wallet/wallet.go:283-322 | for every byte string, reading the text back as leading '1's and a big-endian base-58 number gives the same bytes |
| Base58.EncodeDecode | wallet/wallet.go:281-322 | every text over the alphabet is the text of the bytes it decodes to |
| Base58.EncodeInjective | wallet/wallet.go:283-322 | different byte strings have different texts |
| Base58.BufferLargeEnough | wallet/wallet.go:291-292 | 256^m <= 58^(138m/100 + 1): the buffer holds every number of m bytes |
| Base58.EncodeLength | wallet/wallet.go:291-322 | a text is never shorter than its bytes and never longer than the buffer allows |
| Base58.EncodeIsSameNumber | wallet/wallet.go:283-322 | the digits of the text weigh, as powers of 58, what the bytes weigh as powers of 256, and as many zeros are in front |
| Base58.LettersAscend | wallet/wallet.go:281 | the alphabet is strictly ascending, so no letter stands for two digits |
| Base58.AlphabetIff | wallet/wallet.go:281 | the letters are 1 to 9, A to Z without I and O, and a to z without l |
| Base58.ShiftDigit | wallet/wallet.go:297-301 | one turn of the inner loop, in place: the digit and the carry keep the total, and both stay in range |
| Base58.ShiftIn | wallet/wallet.go:296-302 | the inner loop turns the number in buf into 256 times it plus the byte, never leaves buf, ends with no carry, and everything up to the new high mark is zero |
| Base58.WriteLetters | wallet/wallet.go:308-321 | the output array is one '1' for each leading zero byte, then the letters of the digits |
| Base58.Spell | wallet/wallet.go:305-321 | the zero digits in front are skipped, so the numeral written is the shortest one |
| Base58.Base58Encoding | wallet/wallet.go:283-322 | the in-place conversion computes the text that decoding inverts |
| Address.HexRead | wallet/wallet.go:246-253 | a number printed in enough hexadecimal digits parses back to itself |
| Address.ShardReadIff | wallet/wallet.go:246-253 | the shard is the fifth and sixth character as a hexadecimal number of either case, and an error if one is no digit |
| Address.AddressParts | wallet/wallet.go:256-268 | an address is header, shard, base-58 body and checksum, in these places, and at least 34 characters |
| Address.AddressWellFormed | wallet/wallet.go:232-268 | every address passes IsWalletValid, gives back its shard modulo 256, and is neither reserved name |
| Address.AddressIdentity | wallet/wallet.go:256-268 | two keys share an address if and only if they share the digest and the shard modulo 256 |
| Address.ChecksumIsCheckedIff | wallet/wallet.go:232-244 | a text of 30 characters or more is valid if and only if its last eight are the checksum of its middle |
| Address.ShortIsRefused | wallet/wallet.go:233-239 | a shorter text is valid if and only if it is a reserved name |
| Address.WrongChecksumIsRefused | wallet/wallet.go:232-268 | an address whose last eight characters are replaced is valid if and only if they are the same again |
| Address.HeaderUnchecked | wallet/wallet.go:241-243 | a long address is as valid under any other six-character header |
| Transactions.NodeCalls | wallet/wallet.go:232-268 | the wallet package meets everything the ledger relies on |
| Transactions.TwoBalances | networking/import.go:427-429 | two different accounts never hold more than the supply, nor more than circulates |
| Processing.CheckIff | blockchain/processing.go:225-276 | a transaction passes if and only if it is signed, new and covered, and then exactly amount plus gas is debited |
| Processing.ReplayIffPayable | blockchain/processing.go:219-280 | the step-by-step replay accepts if and only if every transaction is signed, new and from a known wallet and no wallet sends more in the whole block than it opened with |
| Processing.ReplayView | blockchain/processing.go:230-276 | the tainted balances are the opening ones less what each wallet sent |
| Processing.ReplayConserves | blockchain/processing.go:219-280 | the replay takes exactly its debits out of the opening supply |
| Processing.FailureSticks | blockchain/processing.go:219-280 | the first failure is the answer, whatever follows |
| Processing.ReasonIff | blockchain/processing.go:225-276 | each reason to reject a transaction, in terms of signature, account, amount plus gas and earlier blocks: the first check that fails |
| Processing.ReplayFailsFirst | blockchain/processing.go:219-280 | the failure reported is that of the first transaction that fails, after all before it have passed |
| Processing.ValidationIff | blockchain/processing.go:210-292 | a block is accepted if and only if it is genesis, or every transaction in it is payable and its Merkle root is that of its transactions and receipts; a payable block is refused for its root only |
| Chain.Blockchain.GetWalletState | blockchain/processing.go:168-176 | the stored balance, or that there is none |
| Chain.Blockchain.SetState | blockchain/processing.go:294-301 | only the one account changes |
| Chain.Blockchain.ValidateBlock | blockchain/processing.go:210-293 | the loop over the tainted maps gives the answer of the replay, with the first reason to reject and its place, and changes nothing |
| Chain.Blockchain.AddMempoolTransaction | blockchain/pool.go:45-66 | a valid transaction is stored and queued under the hash of the bytes it came in, unless something is there already; otherwise nothing changes |
| Chain.Blockchain.Candidate | blockchain/pool.go:107-186 | one queued key is taken exactly when the specification takes it, with the same new balance |
| Chain.Blockchain.SelectTransactions | blockchain/pool.go:94-194 | the loop over the queue, with its tainted maps and length, selects what the specification selects and leaves the same queue |
| Chain.Blockchain.GenerateBlock | blockchain/pool.go:69-214 | the block is the header on the next queued hash with the selection and its Merkle root; the length starts from that header's; without a block to build on nothing is consumed |
| Pool.TakenIff | blockchain/pool.go:107-186 | a queued key is taken if and only if it is stored, passes the filter, sender and miner are validators of one shard and what is left covers amount plus gas as they add up; then exactly that is debited |
| Pool.SelectedAreAllowed | blockchain/pool.go:107-136 | everything selected has passed the filter, and its sender is a validator of the miner's shard |
| Pool.FillKeeps | blockchain/pool.go:94-194 | whatever is queued and however it is filed, each sender can pay for what is selected, and all but the last selected transaction fits |
| Pool.SelectionReplaysIff | blockchain/processing.go:219-280 | the validator's replay accepts a selection if and only if every transaction in it is signed and not in an earlier block |
| Pool.GeneratedBlockIsValidIff | blockchain/pool.go:69-214 | a generated block passes validation on its chain if and only if all its transactions are signed and new (an empty one: if and only if nothing has the empty Merkle root), and is under the limit without its last transaction |
| Pool.CanonicalSelectionIff | blockchain/pool.go:53-62 | if every stored transaction came in its own encoding, only a bad signature can keep a generated block out |
| Pool.OtherBytesAreSelectedAgain | blockchain/pool.go:53-62 | an included transaction that comes again in other bytes is selected, and the block made of it is rejected as already included |
| Import.TransferSupply | networking/import.go:428-443 | what one transfer does to the supply, whatever wraps |
| Import.TransferTakesGasIff | networking/import.go:428-443 | about the supply alone: one raw transfer, covered or not, takes exactly its gas out of it if and only if (other recipient) sum and debit wrap as often as the credit, or (self) nothing is paid or the sum is 2^64 and the credit wraps |
| Import.CheckedTransferIsExactIff | networking/import.go:427-443 | about the accounts: a transfer that passes the check moves amount and gas, and nothing else, if and only if (other recipient) neither sum nor credit wraps, or (self) nothing is paid |
| Import.SelfTransferMints | networking/import.go:387-443 | a validated payment of 10 to oneself turns 100 into 110 |
| Import.WrappedTransferMints | blockchain/processing.go:247-250 | a validated payment whose amount plus gas wraps to zero is paid out of an empty account |
| Import.WrappedTransferTakes | blockchain/processing.go:247-250 | where the credit wraps too the supply is right, yet the sender pays nothing and the recipient's 1 is gone |
| Import.AppliedIff | networking/import.go:371-384 | in an accepted block exactly the staking transactions of registered senders are skipped; who is registered by then can be told before the import |
| Import.PaidTwiceIff | blockchain/processing.go:252-264 | an accepted block applies a transaction at two places if and only if it lists it at two places and, if it stakes, its sender is not registered before the second |
| Import.StakerActsIff | networking/import.go:377-384 | who registers in an accepted block is in the book with its amount and transaction, and acts from 200 blocks after the import on |
| Import.ImportFollowsReplay | networking/import.go:364-443 | before every transaction of a validated block each account holds at least what the replay allows it, so no debit underflows and no credit outside the staking account overflows, and circulating money grows at most by what accounts pay themselves |
| Import.ValidatedTransferIsExactIff | networking/import.go:427-443 | up to the first sum that wraps, an applied transaction, staking included, moves exactly amount and gas if and only if its sum does not wrap and it does not pay its own sender; then its credit does not overflow |
| Import.ValidationMakesImportExactIff | networking/import.go:427-443 | every applied transaction of a validated block moves exactly amount and gas if and only if no applied sum wraps and none pays its own sender |
| Import.SupplyModulo | networking/import.go:364-443 | for every block, valid or not, the supply is right modulo 2^64 up to what accounts paid themselves |
| Import.ImportSupply | networking/import.go:364-443 | a validated block moves the supply by exactly its gas and its self-payments |
| Import.SupplyFallsByGasIff | networking/import.go:364-443 | a validated block takes exactly its gas out of the supply if and only if no transaction in it pays its own sender; skipped transactions change nothing |
| Chain.ImportTransaction | networking/import.go:365-460 | one turn of the loop, on the mutable chain and book, is one step of the specification |
| Chain.PayRecipient | networking/import.go:387-460 | both balances are read before either is written, and the index replaces the transaction in the database |
| Chain.ImportGenesis | networking/import.go:315-355 | each genesis wallet gets one more than the one before it and is registered at dynasty -300 with a transaction that has no sender |
| Import.GenesisEntry | networking/import.go:315-351 | the genesis wallets get 20001, 20002 and so on; those that register stake 10000, are of shard 1 and act at once |
| Chain.ImportTransactions | networking/import.go:364-461 | the loop leaves the ledger the specification leaves |
| Chain.ImportBlock | networking/import.go:306-464 | a rejected block changes nothing; the genesis block and any other leave the ledger the specification leaves |
| Chain.ValidatorsBook.AddValidator | blockchain/validators.go:164-186 | registers a new wallet of shard 1 with the transaction's amount as stake, records the transaction, and leaves a known wallet alone |
| Chain.ValidatorsBook.RemoveValidator | blockchain/validators.go:189-195 | only that wallet's entry goes; its recorded transaction stays |
| Chain.ValidatorsBook.WithdrawValidator | blockchain/validators.go:206-212 | only that wallet's end of dynasty changes |
| Chain.ValidatorsBook.SetShard | blockchain/validators.go:215-221 | only that wallet's shard changes |
| Chain.ValidatorsBook.CheckWithdraw | blockchain/validators.go:63-95 | removes before it pays; pays the recorded amount once, to an existing account |
| Chain.ValidatorsBook.LenValidators | blockchain/validators.go:151-159 | the number of validators of the shard, whatever the map's order |
| Chain.ValidatorsBook.CheckDynastyOf | blockchain/validators.go:53-60 | the dynasty window, on 64-bit integers |
| Chain.ValidatorsBook.SortedWallets | blockchain/validators.go:241-245 | the wallets once each in ascending order, whatever the map's order |
| Chain.ValidatorsBook.ChooseValidator | blockchain/validators.go:238-285 | the answer is a function of the book and the seed, not of the map's order |
| Book.AddedStakes | blockchain/validators.go:164-186 | a registration adds exactly its stake, and every stake stays its recorded transaction's amount |
| Book.InBookIff | blockchain/validators.go:164-186 | exactly a wallet of shard 1 with a valid address and a key that is a point gets into the book, and nobody in it is changed |
| Book.SenderRegistersIff | blockchain/validators.go:168-182 | a transaction's sender registers if and only if its key is a point and its shard is 1 modulo 256 |
| Book.NewValidatorActsIff | blockchain/validators.go:53-60 | a new validator is of shard 1 only, keeps its key and transaction, and acts from 200 blocks after its registration on |
| Book.WithdrawnActsIff | blockchain/validators.go:53-60 | a validator that withdraws at a block acts for 200 blocks more |
| Book.ShardsPartition | blockchain/validators.go:151-159 | every validator is counted for one shard |
| Book.RemovedStakes | blockchain/validators.go:189-195 | a removal takes exactly that stake away |
| Book.RegisteredSenderReclaims | blockchain/validators.go:70-72 | a sender that could register always passes the address check of its withdrawal |
| Choice.AscendingUnique | blockchain/validators.go:241-245 | there is one ascending list of given names |
| Choice.SortAscending | blockchain/validators.go:245 | sorting different names gives the same names in strictly ascending byte order |
| Choice.BeforeIff | blockchain/validators.go:245 | the order of two names is that of their first different character; a prefix comes first |
| Choice.EligibleExactly | blockchain/validators.go:250-262 | exactly the validators in their dynasty and shard take part, with their own stake |
| Choice.EligibleAscends | blockchain/validators.go:250-262 | those that take part come in ascending order, so each once |
| Choice.LineupIsShuffled | blockchain/validators.go:267-273 | the lineup is the eligible list in the order of the generator's permutation for the block |
| Choice.StakeOwnsItsRange | blockchain/validators.go:263-284 | with stake between 1 and 2^64 an eligible validator is always chosen, and each owns a range of levels as long as its stake |
| Choice.DrawChooses | blockchain/validators.go:263-284 | the draw times the total stake chooses the validator in whose part of the shuffled stakes it falls |
| Choice.NoneWithoutStake | blockchain/validators.go:263-265 | below a total of 2^64 nobody is chosen if and only if nobody eligible has a stake |
| Staking.EveryBondSettlesOnce | blockchain/validators.go:63-95 | over every run each bond opens once and ends at most once, for its own amount, and the registered stakes are exactly the open bonds |
| Staking.DueRefundIff | blockchain/validators.go:63-95 | a withdrawal whose time has come ends the bond if and only if the recorded transaction leads back to the wallet |
| Staking.WithdrawalIff | blockchain/validators.go:63-95 | a registered wallet is paid its stake if and only if its time has come, the recorded transaction leads back to it and it has an account; it leaves the book if and only if the first two hold; otherwise nothing changes |
| Staking.OthersCannotWithdraw | blockchain/validators.go:63-67 | for anybody else nothing changes |
| Staking.StuckNeverChanges | blockchain/validators.go:63-95 | over every run the set of registered wallets that can never withdraw stays the same: imports add none, withdrawals free none |
| Staking.GenesisStuckIff | networking/import.go:315-351 | whoever the genesis branch registers can never withdraw, unless the address of no bytes is theirs |
| Staking.GenesisStakeStays | networking/import.go:315-351 | over every later run such a wallet stays registered |
| Staking.WealthAccounts | networking/import.go:377-443 | over every run the money outside the staking account plus the registered stakes falls by exactly gas, unregistered stakes and withdrawals without an account, and rises by exactly what senders pay themselves |
| Staking.WealthOnlyLeaksIff | networking/import.go:377-443 | it falls by exactly its leaks if and only if no imported block holds a payment to its own sender |
| Staking.NeverInTwoBlocks | blockchain/processing.go:252-264 | once a block has applied a transaction, no later run lets that chain import a block that holds it |
| Staking.RepeatedInOneBlock | blockchain/processing.go:252-264 | an input: one block holds the same payment twice and both are paid |
| Staking.ValidatorOverRun | blockchain/validators.go:164-221 | over every run a validator whose money is not withdrawn stays in the book with the stake, key, start and transaction it came with; its end is the last it asked for, its shard the last it was given |
| Staking.ClockOverRun | networking/import.go:93 | over every run each chain's current block moves by its own ticks only, modulo 2^64 |
| Staking.FilesOverRun | blockchain/pool.go:45-66 | over every run what is filed stays filed, every submitted transaction is, and bytes are filed only under their own hash and only if they were there or were submitted to this shard |
| Lifecycle.GeneratedBlockKeepsBook | blockchain/pool.go:122-136 | every selected sender is a validator already, so importing a generated block never registers anyone and leaves the book as it was |
| Lifecycle.GeneratedBlockPaysItsGasIff | blockchain/pool.go:69-214 | a generated, non-empty block is accepted by its chain if and only if it is signed and new, and then takes exactly its gas out of the supply if and only if nobody in it pays itself |
| Schnorr.Sign | wallet/schnorr.go:37-68 | the loops compute the signature over own point first, then the others |
| Schnorr.CreateSignature | wallet/schnorr.go:126-148 | both loops compute the sums in list order |
| Schnorr.VerifySignature | wallet/schnorr.go:150-163 | the verdict is the equation on the sums of all P and all R |
| Schnorr.SignaturesAddUp | wallet/schnorr.go:65-67 | signatures on one challenge add up to the nonces less the challenge times the keys |
| Schnorr.VerifiesIff | wallet/schnorr.go:81-88 | a scalar passes if and only if it is log R less the challenge times log P |
| Schnorr.SignedEquation | wallet/schnorr.go:37-68 | a signature is k - H(m, P, R) * x modulo the order, with P and R the sums of the own point and the others |
| Schnorr.VerifiesEquation | wallet/schnorr.go:81-88 | verification is R = s * G + H(m, P, R) * P, on the multiples of the base point |
| Schnorr.OnlyTheAggregateVerifies | wallet/schnorr.go:37-163 | for any number of signers and any order of every list, the aggregate of honest signatures is accepted and no other scalar is |
| Schnorr.OtherMessageIff | wallet/schnorr.go:37-163 | the honest aggregate for one message is accepted for another if and only if the difference of the two hashes times the sum of the keys is 0 modulo the order |
| Casper.IsVoteValid | networking/casper.go:113-144 | the loop is the walk down from the previous hash of what is stored at the target height; the target hash is not read |
| Casper.VoteValidIff | networking/casper.go:112-144 | a vote is valid if and only if its source is an ancestor of what is stored at its target height, by previous-hash links at decreasing heights down to the first height at or below the checkpoint |
| Casper.DescentIsStored | networking/casper.go:120-137 | every block on the way to a source is stored, unless the source is the hash of nothing |
| Casper.PastGenesisIff | networking/casper.go:120-137 | the walk passes height zero if and only if it starts there, or height zero holds an ancestor without a previous hash, all heights up to the checkpoint hold the same, and the source is no ancestor |
| Casper.UnknownSourcePassesGenesis | networking/casper.go:120-137 | on a chain of two blocks a vote with an unknown source passes genesis |
| Casper.ConnectionStore.Accepts | networking/casper.go:51-77 | the checks of the counting loop, on the beacon chain's book |
| Casper.EligibleIff | networking/casper.go:51-77 | a vote is counted if and only if it has the round's heights, its wallet is a validator of the shard within its dynasty, and its source is an ancestor of what is stored at its target height |
| Casper.ConnectionStore.CountVotes | networking/casper.go:47-91 | the two loops count exactly the wallets with exactly one eligible vote |
| Casper.ConnectionStore.CheckpointAgreement | networking/casper.go:46-102 | succeeds exactly when more than two thirds of the shard's validators are counted (the integer division loses nothing); then the votes are dropped and the checkpoint moves; otherwise nothing changes |
| Casper.ConnectionStore.AddVote | networking/casper.go:147-158 | a validator's vote is appended and stored at CurrentVote; another's is ignored |
| Casper.VotersAreMembers | networking/casper.go:60-73 | every wallet with an eligible vote is among those LenValidators counts |
| Casper.OrderDoesNotMatter | networking/casper.go:50-91 | the count depends on the votes, not on their order |
| Casper.RepeatedVoteDropsItsVoter | networking/casper.go:79-91 | a second eligible vote of a wallet takes it out of the count, and further ones change nothing |
| Casper.TargetsAreIgnored | networking/casper.go:50-93 | votes that name other targets give the same count and the same agreement |
| Casper.DifferentTargetsAgree | networking/casper.go:50-93 | three validators agree on three different targets |
| Casper.EligibleVoteIsTrueIff | networking/casper.go:51-77 | an eligible vote says the truth about its two blocks if and only if the target it names is stored at its target height and the source at its source height |
| Casper.QuorumsIntersect | networking/casper.go:93-99 | two agreements over the same validators share more than a third of them |
| Arrivals.ArrivingBlocks.AddGenesisToQueue | networking/server.go:194-205 | genesis is queued first and has height zero |
| Arrivals.ArrivingBlocks.ModifyMissingBlock | blockchain/processing.go:40-42 | the entry moves to the new key, one longer |
| Arrivals.ArrivingBlocks.AddMissingBlock | blockchain/processing.go:43-45 | a new entry of length one replaces what waited for the same key |
| Arrivals.ArrivingBlocks.Recalculate | networking/broadcast.go:113-116 | the recalculation loop, reading the previous height again in each turn |
| Arrivals.ArrivingBlocks.BlockProposal | networking/broadcast.go:105-143 | the four branches update heights, missing blocks and queue as the specification does |
| Arrivals.StepQueuesExactly | networking/broadcast.go:108-143 | what an arrival queues: nothing if its parent is not recorded; else the highest waiting block, or itself at its parent's height plus one, each at its height plus its order of arrival |
| Arrivals.ArrivedIsNotAwaited | networking/broadcast.go:125-142 | a block that has arrived is waited for no longer, its unrecorded parent is, for the same highest block, and no other entry changes |
| Arrivals.MissingIsUnbroken | blockchain/processing.go:40-45 | for every order of arrival each entry is an unbroken chain of arrived blocks from its highest down to the missing key, as long as its sequence number |
| Arrivals.HeightsWithinDepths | networking/broadcast.go:108-143 | for every order of arrival each recorded block is connected to genesis through arrived blocks and its height is between half its depth and its depth |
| Arrivals.GapClosingStacks | networking/broadcast.go:111-124 | closing a gap gives the waiting blocks consecutive heights along their parent links and changes no other height |
| Arrivals.QueueRanksByHeight | networking/broadcast.go:105-137 | every queued block is connected to genesis and queued at a height between half its depth and its depth, plus its own order of arrival |
| Arrivals.InSyncIffNoGapCloses | networking/broadcast.go:111-137 | after every arrival all connected blocks are recorded at their depth, if and only if no arrival closes a gap |
| Arrivals.QueueWithoutClosing | networking/broadcast.go:131-137 | as long as no arrival closes a gap the queue holds each connected block once for every arrival of it whose parent was connected, at its depth plus that order of arrival, and nothing else |
| Arrivals.ClosedGapLosesBlocks | networking/broadcast.go:108-143 | arrivals two, three, one: only two is recorded, one too low, and three waits for a block that has been here |
| Arrivals.SameKeysRecordNothing | networking/broadcast.go:97-103 | with the keys as written no block is recorded; the height of genesis counts its children |
| Arrivals.SameKeysOnlyCount | networking/broadcast.go:97-143 | with the keys as written a parent is waited for exactly after an odd number of its children |
| Merkle.VerifyMerkleProof | networking/merkleproof.go:148-161 | the fold accepts exactly when the climb from the value ends at the root |
| Merkle.ProofLeadsToRoot | networking/merkleproof.go:148-161 | for every binary hash tree and every leaf, its proof climbs to the root |
| Merkle.FlattenProof | networking/merkleproof.go:183-190 | the two lists rebuild to the proof they came from |
| Merkle.RebuildProof | networking/merkleproof.go:128-134 | one level for each key, with the hash at the same place |
| Merkle.ProveAndVerify | networking/merkleproof.go:148-190 | what is generated for any leaf of any tree is accepted after flattening and rebuilding |
| Merkle.ClimbBinds | networking/merkleproof.go:148-161 | two climbs with the same sides to the same hash start from the same value, or exhibit a collision |
| Merkle.VerifyProof | networking/merkleproof.go:92-145 | accepts exactly when the root is stored for the shard, the leaf is the receipt's hash and the climb ends at the root |
| Merkle.SameReceiptIff | blockchain/merkletree.go:16-25 | two transactions have one receipt if and only if sender, recipient, amount and nonce agree |
| Merkle.ProofsBindReceipts | networking/merkleproof.go:92-161 | two accepted proofs with the same root and sides are of the same encoded receipt, or exhibit a collision |
| Merkle.ProofIsOfALeaf | networking/merkleproof.go:92-161 | an accepted proof with a tree's root and the sides of one of its paths is of the receipt at that leaf, or exhibits a collision |
| Merkle.PaysWhatItProvesIff | networking/merkleproof.go:32-78 | an accepted call moves the proved receipt, once over all chains, if and only if all interests are one shard, the payments there add up to the receipt and gas is paid once; with gas to pay, if and only if there is one interest and the transaction's own receipt is the proved one up to the nonce |
| Merkle.ProofIgnoresTransaction | networking/merkleproof.go:92-145 | with any other transaction the proof is accepted too |
| Merkle.OtherTransactionIsPaid | networking/merkleproof.go:36-78 | an accepted proof of a receipt over 1 pays a transaction over 10 from another account |
| Merkle.ReceiptIsPaidTwice | networking/merkleproof.go:39-78 | with two interests an accepted proof of a receipt over 10 moves 20, the transaction being the proved one |
| Merkle.FailingCallPays | networking/merkleproof.go:39-78 | without an account on the second chain the call fails after the first chain has paid |
| Merkle.NoInterestsBurn | networking/merkleproof.go:32-79 | without interests a proved leaf is burned, the call accepted and nothing paid |
| Merkle.FailureLeavesBalancesIff | networking/merkleproof.go:50-59 | a failing call leaves every balance as it was if and only if the first shard of interest already cannot pay |
| Merkle.PaysIff | networking/merkleproof.go:39-78 | paying succeeds if and only if the sender can pay on each shard as often as it is among the interests, and then makes as many transfers on each |
| Merkle.AffordsTimesIff | networking/merkleproof.go:55-66 | k payments to another account can be made if and only if the balance covers k times amount and gas |
| Merkle.CanPayIff | networking/merkleproof.go:50-59 | one shard can pay if and only if the sender has an account there that covers amount plus gas, or their sum wraps |
| Merkle.AcceptedCostsGasIff | networking/merkleproof.go:65-78 | a payment made once on a shard takes its gas out of that shard's supply if and only if the raw transfer does |
| Merkle.ReceiptStore.CheckMerkleProof | networking/merkleproof.go:21-82 | rejects burned leaves and unproved ones, burns before paying, and keeps what was paid before a failure |
| Merkle.RejectedIff | networking/merkleproof.go:21-145 | a proof is rejected, and nothing changes, if and only if its leaf is burned, no stored list of its shard holds its root, its leaf is not its receipt's hash or it does not lead to the root; otherwise its leaf is burned |
| Merkle.UnknownRootIsRejected | networking/merkleproof.go:96-125 | a proof whose root no stored list holds is rejected and nothing changes |
| Merkle.FirstFailure | networking/merkleproof.go:39-59 | a failure comes from the first shard that cannot pay, after all before it have, and says whether the sender has an account there |
| Merkle.ReceiptStore.PayOnShards | networking/merkleproof.go:39-78 | the loop over the interests, ending at the first shard that cannot pay |
| Merkle.BurnedForever | networking/merkleproof.go:19-34 | over every run the burned leaves only grow |
| Merkle.LeafPaysOnce | networking/merkleproof.go:23-34 | over every run two calls that change anything have different leaves |
| Merkle.UnpaidLeafIsSpent | networking/merkleproof.go:32-59 | a proved leaf that could not be paid is rejected ever after |
| Gossip.Relay.Broadcast | networking/server.go:371-396 | the TTL is decremented with wrap-around and the message goes to the open clients it is for, only with a TTL from 1 to 64 |
| Gossip.HandlingCosts | networking/server.go:371-396 | handling one message lowers the sum of (D+1)^TTL over the messages in flight |
| Gossip.ForwardingEnds | networking/server.go:352-397 | a run of any nodes has no more steps than the total cost of the messages it starts from |
| Gossip.Inbox.CheckDuplicatedMessage | networking/server.go:401-419 | reports a known hash, else appends it and trims the window to 5000 |
| Gossip.WindowIsLatest | networking/server.go:401-419 | after any run the window is the last 5000 accepted hashes |
| Gossip.AcceptedFarApart | networking/server.go:401-419 | a hash is accepted again only after at least 5000 others |
| Gossip.WindowHasNoRepeats | networking/server.go:401-419 | the window holds at most 5000 hashes, all different |

## Left out

- Chain.ImportBlock: the wallet files the genesis branch reads; their addresses and keys are a parameter.
- Chain.ImportTransaction: contract calls and contract creation; transactions have no function name. The random shard is a parameter that AddValidator ignores, as in the source.
- Chain.PayRecipient: contract calls and contract creation.
- Chain.ImportTransactions: contract calls, which can end the source's loop with an error.
- Chain.Blockchain.ValidateBlock: signature checks, hashes, encodings and the Merkle tree are parameters.
- Chain.Blockchain.GenerateBlock: the mempool's priority queue is its pop order; ValidateTransaction is an arbitrary filter; the clock is a parameter; contracts and their receipts.
- Chain.ValidatorsBook.ChooseValidator: floating-point rounding; levels are real numbers and the generator any function of the seed with a permutation and a number in [0, 1).
- Choice.StakeOwnsItsRange: floating-point rounding, as above.
- Choice.DrawChooses: floating-point rounding, as above, and totals of 2^64 or more, where the source's counter wraps.
- Chain.ValidatorsBook.CheckWithdraw: what the waiting period should be; the comparison is kept as written.
- Book.NewValidatorActsIff: block numbers of 2^63 and more and dynasties so close to it that adding 200 wraps; `Chain.ValidatorsBook.CheckDynastyOf` has them.
- Book.WithdrawnActsIff: the same.
- Import.StakerActsIff: the same.
- Import.GenesisEntry: block numbers of 2^63 and more, and the same wallet file read twice.
- Casper.EligibleIff: the same as `Book.NewValidatorActsIff`, and chains in which two different blocks have one hash.
- Staking.WithdrawalIff: ends of dynasty to which adding the waiting period wraps; `Chain.ValidatorsBook.CheckWithdraw` has them.
- Staking.ValidatorOverRun: wallets whose money is withdrawn and that register again; `Staking.EveryBondSettlesOnce` has their bonds.
- Import.ImportFollowsReplay: blocks in which amount + gas wraps; there the credit is near 2^64 and the simulation fails (`Import.WrappedTransferMints`).
- Import.ImportSupply: the same.
- Import.SupplyFallsByGasIff: the same; `Import.SupplyModulo` and `Import.TransferTakesGasIff` hold with wraps.
- Staking.WealthAccounts: runs that import a block in which an applied transaction's amount + gas wraps.
- Staking.WealthOnlyLeaksIff: the same.
- Lifecycle.GeneratedBlockPaysItsGasIff: the same, in its half about the supply.
- Base58.Base58Encoding: the int arithmetic of lengths is unbounded; the digits are proved to fit a byte and the carry to stay below 256 + 256 * 57. The function's loops are separate methods, as are the parts of GenerateBlock, ImportBlock, ChooseValidator, CheckpointAgreement and CheckMerkleProof.
- Casper.IsVoteValid: what happens after the counter passes zero; it counts as not valid.
- Casper.VoteValidIff: chains in which two different blocks have one hash.
- Casper.ConnectionStore.AddVote: the encoding of a vote and the database's errors.
- Arrivals.ArrivingBlocks.BlockProposal: the checks before it (shard, miner) and SaveBlock after it; heights are unbounded; the clock is a parameter; the priority queue is a multiset of keys and priorities.
- Arrivals.MissingIsUnbroken: the key as line 103 computes it; this and the next four are about the intended one, `Arrivals.SameKeysRecordNothing` and `Arrivals.SameKeysOnlyCount` about the other.
- Arrivals.HeightsWithinDepths: as above; it also assumes that the parent of genesis never arrives. The blocks the node makes itself (networking/server.go:785-786 writes HashBlocks and PriorityBlocks for them too) are not part of the runs.
- Arrivals.GapClosingStacks: as above.
- Arrivals.QueueRanksByHeight: as above.
- Arrivals.InSyncIffNoGapCloses: as above.
- Arrivals.QueueWithoutClosing: as above, and feeds in which a gap closes; `Arrivals.StepQueuesExactly` and `Arrivals.QueueRanksByHeight` hold of those too.
- Merkle.RebuildProof: fewer hashes than keys, where the source panics.
- Merkle.ReceiptStore.CheckMerkleProof: parsing the interests; they are the shard numbers, in the order the map gives them. Shards without a chain, where the source panics.
- Merkle.PaysWhatItProvesIff: payments to oneself, of nothing, or that wrap, and chains whose supply is 2^64 or more.
- Merkle.FailureLeavesBalancesIff: payments to oneself, of nothing without gas, or that wrap.
- Merkle.AffordsTimesIff: payments to oneself, or that wrap.
- Merkle.AcceptedCostsGasIff: shards that are among the interests more than once.
- Merkle.FlattenProof: levels with more than one entry, which gomerkle does not make.
- Gossip.Relay.Broadcast: channels, and the signature check before it.
- Gossip.ForwardingEnds: which node handles a message; any node may handle any message in flight, with at most D receivers.
- PublicKey, GenerateParameter and key encoding in wallet/schnorr.go, wallet files and their encryption.
- ChooseShard, which iterates over an unsorted map.
- UpdateChain, handleMessage, SendTransaction, peer discovery, HTTP, the command line, statistics.
- The commented-out code: BLS signatures, checkpoint votes over the network.
