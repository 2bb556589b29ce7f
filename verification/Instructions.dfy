/**
  The EVM instruction iterator of `chisel` and the search for the last program
  counter of a source location. A PUSH whose data runs past the end of the code
  makes the iterator panic.
 */
module Instructions {
  import opened Prelude

  /** The data array always holds 32 bytes, of which `dataLen` are in use. */
  datatype Instruction = Instruction(pc: nat, opcode: byte, data: seq<byte>, dataLen: nat)

  datatype Fetch = Done | Panic | Item(instruction: Instruction)

  function PushLen(opcode: byte): nat {
    if 0x60 <= opcode <= 0x7f then opcode - 0x60 + 1 else 0
  }

  /** The iterator's offset after a call made at pc. */
  function Advance(bytes: seq<byte>, pc: nat): nat {
    if pc < |bytes| then pc + 1 + PushLen(bytes[pc]) else pc + 1
  }

  /** The offset at which the k-th instruction is fetched. */
  function Offset(bytes: seq<byte>, k: nat): nat {
    if k == 0 then 0 else Advance(bytes, Offset(bytes, k - 1))
  }

  predicate Truncated(bytes: seq<byte>, pc: nat) {
    pc < |bytes| && Advance(bytes, pc) > |bytes|
  }

  function Zeros(n: nat): seq<byte> {
    seq(n, _ => 0)
  }

  function InstructionAt(bytes: seq<byte>, pc: nat): Instruction
    requires pc < |bytes| && !Truncated(bytes, pc)
  {
    var n := PushLen(bytes[pc]);
    Instruction(pc, bytes[pc], bytes[pc + 1..pc + 1 + n] + Zeros(32 - n), n)
  }

  class InstructionIter {
    const bytes: seq<byte>
    var offset: nat

    constructor (bytes: seq<byte>)
      ensures this.bytes == bytes && offset == 0
    {
      this.bytes, offset := bytes, 0;
    }

    method Next() returns (r: Fetch)
      modifies this
      ensures r == if old(offset) >= |bytes| then Done
                   else if Truncated(bytes, old(offset)) then Panic
                   else Item(InstructionAt(bytes, old(offset)))
      ensures !r.Panic? ==> offset == Advance(bytes, old(offset))
      // Opcodes 0x60 to 0x7f carry 1 to 32 bytes of data, all others none.
      ensures old(offset) < |bytes| ==>
                var opcode := bytes[old(offset)];
                var size := if 0x60 <= opcode <= 0x7f then opcode - 0x5f else 0;
                && (r.Panic? <==> old(offset) + 1 + size > |bytes|)
                && (!r.Panic? ==>
                      && r.Item? && r.instruction.pc == old(offset) && r.instruction.opcode == opcode
                      && r.instruction.dataLen == size && |r.instruction.data| == 32
                      && r.instruction.data[..size] == bytes[old(offset) + 1..old(offset) + 1 + size]
                      && (forall k :: size <= k < 32 ==> r.instruction.data[k] == 0)
                      && offset == old(offset) + 1 + size)
    {
      var pc := offset;
      offset := offset + 1;
      if pc >= |bytes| { return Done; }
      var opcode := bytes[pc];
      var data, dataLen := Zeros(32), 0;
      if 0x60 <= opcode <= 0x7f {
        dataLen := opcode - 0x60 + 1;
        if offset + dataLen > |bytes| { return Panic; }
        data := bytes[offset..offset + dataLen] + data[dataLen..];
        offset := offset + dataLen;
        assert Zeros(32)[dataLen..] == Zeros(32 - dataLen);
      }
      r := Item(Instruction(pc, opcode, data, dataLen));
      assert bytes[pc + 1..pc + 1] + Zeros(32) == Zeros(32);
    }
  }

  // ---- The whole code ----

  /** No instruction is cut off by the end of the code. */
  predicate Complete(bytes: seq<byte>, pc: nat)
    decreases |bytes| - pc
  {
    pc >= |bytes| || (Advance(bytes, pc) <= |bytes| && Complete(bytes, Advance(bytes, pc)))
  }

  function Instructions(bytes: seq<byte>, pc: nat): seq<Instruction>
    requires Complete(bytes, pc)
    decreases |bytes| - pc
  {
    if pc >= |bytes| then []
    else [InstructionAt(bytes, pc)] + Instructions(bytes, Advance(bytes, pc))
  }

  /** Running the iterator to its end yields all instructions, or panics when one is cut off. */
  method Collect(bytes: seq<byte>) returns (r: Option<seq<Instruction>>)
    ensures r.Some? <==> Complete(bytes, 0)
    ensures r.Some? ==> r.value == Instructions(bytes, 0)
  {
    var iter := new InstructionIter(bytes);
    var code: seq<Instruction> := [];
    while true
      invariant fresh(iter) && iter.bytes == bytes
      invariant Complete(bytes, iter.offset) <==> Complete(bytes, 0)
      invariant Complete(bytes, 0) ==> code + Instructions(bytes, iter.offset) == Instructions(bytes, 0)
      decreases |bytes| - iter.offset
    {
      var f := iter.Next();
      if f.Done? { return Some(code); }
      if f.Panic? { return None; }
      code := code + [f.instruction];
    }
  }

  /** The code bytes of an instruction. */
  function CodeOf(i: Instruction): seq<byte>
    requires i.dataLen <= |i.data|
  {
    [i.opcode] + i.data[..i.dataLen]
  }

  predicate Sized(code: seq<Instruction>) {
    forall k :: 0 <= k < |code| ==> code[k].dataLen <= |code[k].data| == 32
  }

  function Assemble(code: seq<Instruction>): seq<byte>
    requires Sized(code)
  {
    if code == [] then [] else CodeOf(code[0]) + Assemble(code[1..])
  }

  /** Opcodes with their data, put together again, are the code. */
  lemma {:induction false} AssembleAll(bytes: seq<byte>, pc: nat)
    requires pc <= |bytes| && Complete(bytes, pc)
    ensures var code := Instructions(bytes, pc); Sized(code) && Assemble(code) == bytes[pc..]
    decreases |bytes| - pc
  {
    if pc < |bytes| {
      var next, i := Advance(bytes, pc), InstructionAt(bytes, pc);
      AssembleAll(bytes, next);
      assert CodeOf(i) == bytes[pc..next];
      assert bytes[pc..next] + bytes[next..] == bytes[pc..];
      var code := Instructions(bytes, pc);
      assert code[0] == i && code[1..] == Instructions(bytes, next);
    }
  }

  // ---- Where instructions start ----

  lemma {:induction false} OffsetIncreases(bytes: seq<byte>, j: nat, k: nat)
    requires j < k
    ensures Offset(bytes, j) < Offset(bytes, k)
  {
    if j < k - 1 {
      OffsetIncreases(bytes, j, k - 1);
    }
  }

  /** The least set holding 0 and closed under stepping over an instruction. */
  ghost predicate IsStart(bytes: seq<byte>, p: nat) {
    p == 0 || exists q: nat :: q < p && Follows(bytes, q, p) && IsStart(bytes, q)
  }

  /** Position p is right after the instruction at q and its data. */
  ghost predicate Follows(bytes: seq<byte>, q: nat, p: nat) {
    q < |bytes| && p == q + 1 + (if 0x60 <= bytes[q] <= 0x7f then bytes[q] - 0x5f else 0)
  }

  lemma {:induction false} StartIsOffset(bytes: seq<byte>, p: nat) returns (k: nat)
    requires IsStart(bytes, p)
    ensures Offset(bytes, k) == p
  {
    if p == 0 {
      k := 0;
    } else {
      var q: nat :| q < p && Follows(bytes, q, p) && IsStart(bytes, q);
      var j := StartIsOffset(bytes, q);
      k := j + 1;
    }
  }

  lemma {:induction false} OffsetIsStart(bytes: seq<byte>, k: nat)
    requires Offset(bytes, k) < |bytes|
    ensures IsStart(bytes, Offset(bytes, k))
  {
    if k > 0 {
      OffsetIncreases(bytes, k - 1, k);
      OffsetIsStart(bytes, k - 1);
      assert Follows(bytes, Offset(bytes, k - 1), Offset(bytes, k));
    }
  }

  lemma {:induction false} InstructionsByOffset(bytes: seq<byte>, j: nat)
    requires Offset(bytes, j) <= |bytes| && Complete(bytes, Offset(bytes, j))
    ensures var code := Instructions(bytes, Offset(bytes, j));
            && (forall k :: 0 <= k < |code| ==> code[k].pc == Offset(bytes, j + k))
            && Offset(bytes, j + |code|) == |bytes|
    decreases |bytes| - Offset(bytes, j)
  {
    var pc := Offset(bytes, j);
    if pc < |bytes| {
      assert Offset(bytes, j + 1) == Advance(bytes, pc);
      InstructionsByOffset(bytes, j + 1);
      var code, rest := Instructions(bytes, pc), Instructions(bytes, Advance(bytes, pc));
      forall k | 0 <= k < |code|
        ensures code[k].pc == Offset(bytes, j + k)
      {
        if k > 0 {
          assert code[k] == rest[k - 1] && Offset(bytes, (j + 1) + (k - 1)) == rest[k - 1].pc;
        }
      }
      assert j + |code| == (j + 1) + |rest|;
    }
  }

  ghost predicate HasPc(code: seq<Instruction>, p: nat) {
    exists k :: 0 <= k < |code| && code[k].pc == p
  }

  lemma PcsAreOffsets(bytes: seq<byte>)
    requires Complete(bytes, 0)
    ensures var code := Instructions(bytes, 0);
            && (forall k :: 0 <= k < |code| ==> code[k].pc == Offset(bytes, k))
            && Offset(bytes, |code|) == |bytes|
  {
    assert Offset(bytes, 0) == 0;
    InstructionsByOffset(bytes, 0);
    assert forall k: nat :: Offset(bytes, 0 + k) == Offset(bytes, k);
  }

  /** The pcs are exactly the instruction starts ... */
  lemma PcsAreStarts(bytes: seq<byte>, p: nat)
    requires Complete(bytes, 0) && p < |bytes|
    ensures HasPc(Instructions(bytes, 0), p) <==> IsStart(bytes, p)
  {
    hide Instructions, Offset, IsStart, Complete;
    var code := Instructions(bytes, 0);
    PcsAreOffsets(bytes);
    if IsStart(bytes, p) {
      var k := StartIsOffset(bytes, p);
      if k > |code| {
        OffsetIncreases(bytes, |code|, k);
      }
      assert code[k].pc == p;
    }
    if HasPc(code, p) {
      var k :| 0 <= k < |code| && code[k].pc == p;
      OffsetIsStart(bytes, k);
    }
  }

  /** ... in increasing order. */
  lemma PcsIncrease(bytes: seq<byte>, j: nat, k: nat)
    requires Complete(bytes, 0) && j < k < |Instructions(bytes, 0)|
    ensures Instructions(bytes, 0)[j].pc < Instructions(bytes, 0)[k].pc
  {
    hide Instructions, Offset, Complete;
    PcsAreOffsets(bytes);
    OffsetIncreases(bytes, j, k);
  }

  // ---- The final program counter ----

  datatype SourceElement = SourceElement(offset: nat, length: nat)

  /** Entry k of the source map is paired with an instruction and names the location. */
  ghost predicate IsMatch(entries: seq<SourceElement>, bytes: seq<byte>, location: SourceElement, k: nat) {
    k < |entries| && Offset(bytes, k) < |bytes| && entries[k] == location
  }

  ghost predicate LastMatch(entries: seq<SourceElement>, bytes: seq<byte>, location: SourceElement, k: nat) {
    IsMatch(entries, bytes, location, k) && forall j: nat :: j > k ==> !IsMatch(entries, bytes, location, j)
  }

  function Larger(best: Option<nat>, pc: nat): nat {
    if best.Some? && best.value > pc then best.value else pc
  }

  /**
    Pairs the source map with the instructions and takes the largest pc among the
    entries at the location: that of the last such entry, or 0 without any. The
    answer is None when a cut-off PUSH is fetched, which happens exactly when one
    is paired with a source map entry.
   */
  method FinalPc(entries: seq<SourceElement>, bytes: seq<byte>, location: SourceElement) returns (r: Option<nat>)
    ensures r.None? <==> exists k: nat :: k < |entries| && Truncated(bytes, Offset(bytes, k))
    ensures r.Some? ==>
              || (exists k: nat :: LastMatch(entries, bytes, location, k) && r.value == Offset(bytes, k))
              || (r.value == 0 && forall k: nat :: !IsMatch(entries, bytes, location, k))
  {
    hide Advance, Zeros;
    var iter := new InstructionIter(bytes);
    var best: Option<nat> := None;
    ghost var last: nat := 0;
    var k: nat := 0;
    while k < |entries|
      invariant k <= |entries| && fresh(iter) && iter.bytes == bytes && iter.offset == Offset(bytes, k)
      invariant forall j: nat :: j < k ==> !Truncated(bytes, Offset(bytes, j))
      invariant best.None? ==> forall j: nat :: j < k ==> !IsMatch(entries, bytes, location, j)
      invariant best.Some? ==> last < k && IsMatch(entries, bytes, location, last) && best.value == Offset(bytes, last)
      invariant best.Some? ==> forall j: nat :: last < j < k ==> !IsMatch(entries, bytes, location, j)
    {
      var f := iter.Next();
      if f.Done? {
        NothingAfterEnd(bytes, k);
        break;
      }
      if f.Panic? { return None; }
      if entries[k] == location {
        if best.Some? {
          OffsetIncreases(bytes, last, k);
        }
        best := Some(Larger(best, f.instruction.pc));
        last := k;
      }
      k := k + 1;
    }
    r := Some(if best.Some? then best.value else 0);
    if best.Some? {
      assert LastMatch(entries, bytes, location, last);
    }
  }

  lemma NothingAfterEnd(bytes: seq<byte>, k: nat)
    requires Offset(bytes, k) >= |bytes|
    ensures forall j: nat :: j >= k ==> Offset(bytes, j) >= |bytes|
  {
    forall j: nat | j > k
      ensures Offset(bytes, j) >= |bytes|
    {
      OffsetIncreases(bytes, k, j);
    }
  }
}
