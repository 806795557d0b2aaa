# Solana counter program, modelled in Dafny

The program keeps one unsigned 32-bit counter in the data of an account. Each
invocation of `process_instructions` does one pass over that data:

1. take the instruction that `CounterInstructions::unpack` decoded from the
   instruction data;
2. take the first account of the list (`NotEnoughAccountKeys` if the list is empty);
3. read its data as a Borsh `CounterAccount { counter: u32 }`, which means four
   little-endian bytes and nothing more;
4. apply `Increment(v)`, `Decrement(v)`, `Update(v)` or `Reset`;
5. write the four-byte encoding of the new counter back into the same buffer.

The project has three modules:

- `Wrappers` (wrappers.dfy): the `Result` type that stands for Rust's `Result`.
- `Borsh` (borsh.dfy): the little-endian integer codec, `u32::to_le_bytes`, and
  `try_from_slice` for a `u32`. It has a general n-byte encoder and decoder with
  round-trip lemmas proved by induction, and their four-byte instances.
- `Counter` (counter.dfy): the instructions, the four-way update `Apply`, the
  specification function `Invoke` of one invocation, and the method
  `ProcessInstructions`. That method works on the accounts' data as
  `array<Byte>` and overwrites the first array in place. The module also holds
  the lemmas about the instructions and the scenario of `test_counter`.

`ProcessInstructions` is proved against `Invoke` applied to the data the
accounts held before the call. The method fails exactly when `Invoke` fails,
and with the same error. On success the first account's data becomes what
`Invoke` computes. On failure no account's data changes. The lemmas then state,
about `Invoke`, what each instruction stores and in which order errors are
reported.

The instruction decoder is not modelled. `ProcessInstructions` takes its outcome
as the parameter `unpacked`, either a decoded `Instruction` or the error it
reported. That error is passed through unchanged. Decoder failures come before
every account check.

An `Increment` or `Decrement` whose result leaves `0..2^32` is the
`OverflowPanic` outcome. In Rust, `+=`/`-=` on `u32` panic when overflow
checks are on and wrap when they are off. That depends on the build profile.
The model takes the panic and does not claim wrap-around. A panic happens before
the write, so the account data is left as it was.

## Model

| member | source | states |
|---|---|---|
| `Borsh.EncodeU32LE` | src/lib.rs:41 | the serialized counter is exactly four bytes whose little-endian value is the counter |
| `Borsh.DecodeU32LE` | src/lib.rs:32 | the four account bytes read as a `u32` are precisely the encoding of the value read, so no four-byte buffer is misread |
| `Borsh.DecodeEncodeLE` | src/lib.rs:13-16 | decoding the n-byte little-endian encoding of any value below 256^n gives that value back |
| `Borsh.EncodeDecodeLE` | src/lib.rs:13-16 | every byte string is the little-endian encoding of its own value at its own length |
| `Borsh.DecodeEncode` | src/lib.rs:13-16 | round trip: decoding the encoding of any `u32` gives that `u32` |
| `Borsh.DeserializeU32` | src/lib.rs:32 | `try_from_slice` succeeds if and only if the data is exactly four bytes, and then the data is the encoding of the value read; shorter data is a too-short error, longer data a bytes-left-over error |
| `Borsh.DeserializeEncode` | src/lib.rs:79-83 | the counter written back reads back, through `try_from_slice`, as that counter |
| `Counter.EncodeInstruction` | src/lib.rs:71-77 | the test payload is a tag byte 0/1/2/3 for Increment/Decrement/Update/Reset, followed by the operand's four little-endian bytes except for Reset |
| `Counter.EncodeInstructionInjective` | src/lib.rs:71-77 | two instructions with the same payload are the same instruction |
| `Counter.Apply` | src/lib.rs:34-39 | the update fails, with the overflow panic outcome, exactly when an Increment sum reaches 2^32 or a Decrement operand exceeds the counter; otherwise Increment adds, Decrement subtracts, Update stores the operand and Reset stores 0 |
| `Counter.Stored` | src/lib.rs:80-83 | the tests' read-back of the account data succeeds exactly on four bytes, and then the data is the encoding of the counter read |
| `Counter.Invoke` | src/lib.rs:20-43 | an invocation succeeds only when the decoder succeeded and there is a first account whose data is exactly four bytes; the new data is then four bytes |
| `Counter.ProcessInstructions` | src/lib.rs:20-43 | succeeds or fails as `Invoke` on the old data does, with the same error; on success the first account's data becomes `Invoke`'s result in place; on failure no account's data changes; only the first account is in the modifies frame |
| `Counter.SuccessStoresEncoding` | src/lib.rs:32-41 | when the update succeeds on the counter read from the first account, the invocation succeeds, and the buffer holds the encoding of the new counter and reads back as it |
| `Counter.ResetStoresZero` | src/lib.rs:37 | on any four-byte account data, Reset succeeds and the data then reads back as 0 |
| `Counter.UpdateStoresValue` | src/lib.rs:38 | on any four-byte account data, Update(v) succeeds and the data then reads back as v |
| `Counter.IncrementAdds` | src/lib.rs:35 | Increment(v) stores old + v when that is below 2^32, and otherwise fails with the overflow outcome |
| `Counter.DecrementSubtracts` | src/lib.rs:36 | Decrement(v) stores old - v when v is at most old, and otherwise fails with the overflow outcome |
| `Counter.IncrementThenDecrementRestores` | src/lib.rs:35-36 | after a successful Increment(v), Decrement(v) succeeds and restores the account's original bytes |
| `Counter.DataMustBeFourBytes` | src/lib.rs:32 | for any instruction, account data that is not exactly four bytes fails the invocation with the Borsh error (too short, or bytes left over) |
| `Counter.ErrorOrder` | src/lib.rs:27-32 | a decoder error is reported whatever the accounts are; with a decoded instruction, an empty account list gives `NotEnoughAccountKeys`; only the first account's data affects the outcome |
| `Counter.ScenarioPayloads` | src/lib.rs:71-107 | the four instruction payloads of the test are [0,2,0,0,0], [1,1,0,0,0], [2,65,0,0,0] and [3] |
| `Counter.TestCounter` | src/lib.rs:52-113 | from a zeroed four-byte account, Increment 2, Decrement 1, Update 65 and Reset each succeed and read back as 2, 1, 65 and 0 |

## Left out

- `CounterInstructions::unpack`: src/instruction.rs is not part of this model. Its outcome is the parameter `unpacked`. The decoder's errors and its payload checks are not stated. `EncodeInstruction` models only the payload layout the tests build.
- The `entrypoint!` registration and the `msg!` log line: host plumbing with no behaviour in the program.
- `program_id` and every `AccountInfo` field except `data` (key, lamports, owner, signer and writable flags, rent epoch): these are read or managed by the host only.
- `RefCell` borrowing of the account data: the data is a plain array. Several entries of the list may be the same array. Only the first is written, and an alias of it sees the same write.
- Counter.IncrementAdds: u32 wrap-around (an unchecked release build) is not modelled. Overflow is the failure outcome of a checked build, because the build profile is not part of the source.
- Counter.DecrementSubtracts: same as above for underflow.
- Counter.Apply: same as above, for both Increment and Decrement.
- The error path of the serialization at src/lib.rs:41 is not modelled. Writing four bytes into the buffer can only fail when the buffer is shorter than four bytes. After a successful `try_from_slice` the buffer is exactly four bytes, so the write is modelled as four element assignments.
- The host's rollback of a failed transaction: every failure in this program comes before the write, so no rollback is needed for the data to be unchanged.
- The account data is read only when it is exactly four bytes: `try_from_slice` rejects both shorter and longer data (src/lib.rs:32), and the model rejects both.
