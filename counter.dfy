/**
 * The counter program: one invocation decodes the first account's data as a
 * `u32`, applies one of four instructions to it and writes the new value back
 * into the same buffer.
 */
module Counter {
  import opened Wrappers
  import opened Borsh

  /** The decoded instruction (`CounterInstructions`). */
  datatype Instruction =
    | Increment(value: U32)
    | Decrement(value: U32)
    | Update(value: U32)
    | Reset

  /** The ways an invocation can fail. */
  datatype ProgramError =
    | InvalidInstructionData       // an error the instruction decoder may report; it reaches
                                   // `ProcessInstructions` inside the parameter `unpacked`
    | NotEnoughAccountKeys         // `next_account_info` on an empty account list
    | BorshIoError(kind: IoError)  // the account data is not a Borsh `u32`
    | OverflowPanic                // `+=` or `-=` on the `u32` counter left 0..2^32 (a panic,
                                   // not an error code the program returns)

  /** The payload layout of the tests: a tag byte, then the operand as `u32::to_le_bytes`. */
  function EncodeInstruction(ins: Instruction): (r: seq<Byte>)
    ensures |r| == if ins.Reset? then 1 else 5
    ensures r[0] == match ins
      case Increment(_) => 0
      case Decrement(_) => 1
      case Update(_) => 2
      case Reset => 3
    ensures !ins.Reset? ==> DecodeU32LE(r[1..]) == ins.value
  {
    match ins
    case Increment(v) => [0] + EncodeU32LE(v)
    case Decrement(v) => [1] + EncodeU32LE(v)
    case Update(v) => [2] + EncodeU32LE(v)
    case Reset => [3]
  }

  /** Different instructions never share a payload. */
  lemma EncodeInstructionInjective(a: Instruction, b: Instruction)
    requires EncodeInstruction(a) == EncodeInstruction(b)
    ensures a == b
  {
  }

  /** The four-way update of the counter, failing where the `u32` arithmetic overflows. */
  function Apply(counter: U32, ins: Instruction): (r: Result<U32, ProgramError>)
    ensures r.Err? <==> ((ins.Increment? && counter + ins.value >= 0x1_0000_0000)
                      || (ins.Decrement? && ins.value > counter))
    ensures r.Err? ==> r.error == OverflowPanic
    ensures r.Ok? ==> r.value == match ins
      case Increment(v) => counter + v
      case Decrement(v) => counter - v
      case Update(v) => v
      case Reset => 0
  {
    match ins
    case Increment(v) =>
      if counter + v < 0x1_0000_0000 then Ok(counter + v) else Err(OverflowPanic)
    case Decrement(v) =>
      if v <= counter then Ok(counter - v) else Err(OverflowPanic)
    case Reset => Ok(0)
    case Update(v) => Ok(v)
  }

  /**
   * One invocation on the data of the accounts, in order: the result of the
   * instruction decoder, then the first account, then its data as a `u32`,
   * then the update. On success, the new data of the first account.
   */
  function Invoke(unpacked: Result<Instruction, ProgramError>, buffers: seq<seq<Byte>>)
    : (r: Result<seq<Byte>, ProgramError>)
    ensures r.Ok? ==> unpacked.Ok? && |buffers| > 0 && |buffers[0]| == |r.value| == 4
  {
    match unpacked
    case Err(e) => Err(e)
    case Ok(ins) =>
      if |buffers| == 0 then Err(NotEnoughAccountKeys)
      else match DeserializeU32(buffers[0])
        case Err(kind) => Err(BorshIoError(kind))
        case Ok(counter) =>
          match Apply(counter, ins)
          case Err(e) => Err(e)
          case Ok(next) => Ok(EncodeU32LE(next))
  }

  /** The data of every account, in order. */
  ghost function Buffers(accounts: seq<array<Byte>>): (d: seq<seq<Byte>>)
    reads set a | a in accounts
    ensures |d| == |accounts|
    ensures forall i :: 0 <= i < |accounts| ==> d[i] == accounts[i][..]
  {
    if accounts == [] then [] else [accounts[0][..]] + Buffers(accounts[1..])
  }

  /**
   * `process_instructions`: reads the first account's data, updates the
   * counter and writes its encoding back into that buffer in place. Nothing
   * is written unless the whole invocation succeeds.
   */
  method ProcessInstructions(accounts: seq<array<Byte>>, unpacked: Result<Instruction, ProgramError>)
    returns (r: Result<(), ProgramError>)
    modifies if |accounts| == 0 then {} else {accounts[0]}
    ensures var expected := Invoke(unpacked, old(Buffers(accounts)));
      && (r.Ok? <==> expected.Ok?)
      && (r.Err? ==> r.error == expected.error)
      && (expected.Ok? ==> accounts[0][..] == expected.value)
    ensures r.Err? ==> forall a | a in accounts :: a[..] == old(a[..])
  {
    if unpacked.Err? {
      return Err(unpacked.error);
    }
    var instruction := unpacked.value;
    if |accounts| == 0 {
      return Err(NotEnoughAccountKeys);
    }
    var account := accounts[0];
    var decoded := DeserializeU32(account[..]);
    if decoded.Err? {
      return Err(BorshIoError(decoded.error));
    }
    var counter := decoded.value;
    match instruction {
      case Increment(v) =>
        if counter + v >= 0x1_0000_0000 {
          return Err(OverflowPanic);
        }
        counter := counter + v;
      case Decrement(v) =>
        if v > counter {
          return Err(OverflowPanic);
        }
        counter := counter - v;
      case Reset =>
        counter := 0;
      case Update(v) =>
        counter := v;
    }
    var bytes := EncodeU32LE(counter);
    account[0], account[1], account[2], account[3] := bytes[0], bytes[1], bytes[2], bytes[3];
    assert account[..] == bytes;
    r := Ok(());
  }

  /** The counter an invocation stores, read back as the tests read it. */
  function Stored(outcome: Result<seq<Byte>, ProgramError>): (r: Result<U32, IoError>)
    requires outcome.Ok?
    ensures r.Ok? <==> |outcome.value| == 4
    ensures r.Ok? ==> EncodeU32LE(r.value) == outcome.value
  {
    DeserializeU32(outcome.value)
  }

  /**
   * Whenever the update succeeds on the counter held by the first account,
   * the invocation succeeds and the data then reads back as the new counter.
   */
  lemma SuccessStoresEncoding(buffers: seq<seq<Byte>>, ins: Instruction, next: U32)
    requires |buffers| > 0 && |buffers[0]| == 4
    requires Apply(DecodeU32LE(buffers[0]), ins) == Ok(next)
    ensures Invoke(Ok(ins), buffers) == Ok(EncodeU32LE(next))
    ensures Stored(Invoke(Ok(ins), buffers)) == Ok(next)
  {
  }

  /** `Reset` stores 0 whatever the counter held. */
  lemma ResetStoresZero(buffers: seq<seq<Byte>>)
    requires |buffers| > 0 && |buffers[0]| == 4
    ensures Invoke(Ok(Reset), buffers).Ok?
    ensures Stored(Invoke(Ok(Reset), buffers)) == Ok(0)
  {
  }

  /** `Update(v)` stores `v` whatever the counter held. */
  lemma UpdateStoresValue(buffers: seq<seq<Byte>>, v: U32)
    requires |buffers| > 0 && |buffers[0]| == 4
    ensures Invoke(Ok(Update(v)), buffers).Ok?
    ensures Stored(Invoke(Ok(Update(v)), buffers)) == Ok(v)
  {
  }

  /** `Increment(v)` stores the sum when it fits in a `u32` and fails otherwise. */
  lemma IncrementAdds(buffers: seq<seq<Byte>>, v: U32)
    requires |buffers| > 0 && |buffers[0]| == 4
    ensures var before := DecodeU32LE(buffers[0]);
      && (before + v < 0x1_0000_0000 ==>
            Invoke(Ok(Increment(v)), buffers).Ok? &&
            Stored(Invoke(Ok(Increment(v)), buffers)) == Ok(before + v))
      && (before + v >= 0x1_0000_0000 ==> Invoke(Ok(Increment(v)), buffers) == Err(OverflowPanic))
  {
  }

  /** `Decrement(v)` stores the difference when it is not negative and fails otherwise. */
  lemma DecrementSubtracts(buffers: seq<seq<Byte>>, v: U32)
    requires |buffers| > 0 && |buffers[0]| == 4
    ensures var before := DecodeU32LE(buffers[0]);
      && (v <= before ==>
            Invoke(Ok(Decrement(v)), buffers).Ok? &&
            Stored(Invoke(Ok(Decrement(v)), buffers)) == Ok(before - v))
      && (v > before ==> Invoke(Ok(Decrement(v)), buffers) == Err(OverflowPanic))
  {
  }

  /** A successful `Increment(v)` followed by `Decrement(v)` restores the account data. */
  lemma IncrementThenDecrementRestores(buffers: seq<seq<Byte>>, v: U32)
    requires Invoke(Ok(Increment(v)), buffers).Ok?
    ensures Invoke(Ok(Decrement(v)), [Invoke(Ok(Increment(v)), buffers).value] + buffers[1..])
         == Ok(buffers[0])
  {
  }

  /** The account data is read only when it is exactly four bytes; otherwise the invocation fails. */
  lemma DataMustBeFourBytes(buffers: seq<seq<Byte>>, ins: Instruction)
    requires |buffers| > 0 && |buffers[0]| != 4
    ensures Invoke(Ok(ins), buffers).Err?
    ensures Invoke(Ok(ins), buffers).error
         == BorshIoError(if |buffers[0]| < 4 then InputTooShort else NotAllBytesRead)
  {
  }

  /**
   * A decoder failure is reported whatever the accounts are, before an empty
   * account list is; only the first account's data is ever consulted.
   */
  lemma ErrorOrder(unpacked: Result<Instruction, ProgramError>, buffers: seq<seq<Byte>>)
    ensures unpacked.Err? ==> Invoke(unpacked, buffers) == Err(unpacked.error)
    ensures unpacked.Ok? && buffers == [] ==> Invoke(unpacked, buffers) == Err(NotEnoughAccountKeys)
    ensures buffers != [] ==> Invoke(unpacked, buffers) == Invoke(unpacked, buffers[..1])
  {
  }

  /**
   * The scenario of `test_counter`: a zeroed four-byte account receives
   * Increment 2, Decrement 1, Update 65 and Reset, and after each call the
   * data reads back as 2, 1, 65 and 0.
   */
  method TestCounter() returns (counters: seq<U32>)
    ensures counters == [2, 1, 65, 0]
  {
    var data := new Byte[] [0, 0, 0, 0];
    var accounts := [data];
    assert data[..] == EncodeU32LE(0);
    ScenarioPayloads();

    // Increment
    ExpectStep(data[..], 0, Increment(2), 2);
    var r := ProcessInstructions(accounts, Ok(Increment(2)));
    assert r.Ok?;
    var read := DeserializeU32(data[..]);
    counters := [read.value];

    // Decrement
    ExpectStep(data[..], 2, Decrement(1), 1);
    r := ProcessInstructions(accounts, Ok(Decrement(1)));
    assert r.Ok?;
    read := DeserializeU32(data[..]);
    counters := counters + [read.value];

    // Update
    ExpectStep(data[..], 1, Update(65), 65);
    r := ProcessInstructions(accounts, Ok(Update(65)));
    assert r.Ok?;
    read := DeserializeU32(data[..]);
    counters := counters + [read.value];

    // Reset
    ExpectStep(data[..], 65, Reset, 0);
    r := ProcessInstructions(accounts, Ok(Reset));
    assert r.Ok?;
    read := DeserializeU32(data[..]);
    counters := counters + [read.value];
  }

  /** The instruction data the scenario sends, built as `test_counter` builds it. */
  lemma ScenarioPayloads()
    ensures EncodeInstruction(Increment(2)) == [0, 2, 0, 0, 0]
    ensures EncodeInstruction(Decrement(1)) == [1, 1, 0, 0, 0]
    ensures EncodeInstruction(Update(65)) == [2, 65, 0, 0, 0]
    ensures EncodeInstruction(Reset) == [3]
  {
  }

  /** One step of the scenario: from the encoding of `c`, `ins` stores the encoding of `next`. */
  lemma ExpectStep(data: seq<Byte>, c: U32, ins: Instruction, next: U32)
    requires data == EncodeU32LE(c) && Apply(c, ins) == Ok(next)
    ensures Invoke(Ok(ins), [data]) == Ok(EncodeU32LE(next))
    ensures DeserializeU32(EncodeU32LE(next)) == Ok(next)
  {
  }
}
