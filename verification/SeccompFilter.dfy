/**
  The seccomp filter as a classic-BPF program, the calls it stops, the handlers registered for
  them, and the tracker's decoder.
 */
module SeccompFilter {
  import opened Words
  import opened Wrappers

  // ---------------------------------------------------------------------------
  // Classic BPF over struct seccomp_data

  /** A 64-bit argument as the two words it occupies, low word first. */
  datatype Argument = Argument(low: Word, high: Word)

  datatype SeccompData = SeccompData(nr: Word, arch: Word, instructionPointer: Argument, args: Arguments)

  type Arguments = args: seq<Argument> | |args| == 6 witness seq(6, _ => Argument(0, 0))

  const OFFSET_NR := 0
  const OFFSET_ARCH := 4

  function OffsetOfArg(n: nat): (offset: nat) {
    16 + 8 * n
  }

  datatype Instruction =
    | LoadWord(offset: nat)
    | JumpIfSet(mask: Word, jt: nat, jf: nat)
    | JumpIfEqual(value: Word, jt: nat, jf: nat)
    | Return(action: Word)

  /** The word at an aligned offset into the data. */
  function WordAt(data: SeccompData, offset: nat): (word: Word) {
    if offset == OFFSET_NR then data.nr
    else if offset == OFFSET_ARCH then data.arch
    else if offset == 8 then data.instructionPointer.low
    else if offset == 12 then data.instructionPointer.high
    else if 16 <= offset < 64 then
      var arg := data.args[(offset - 16) / 8];
      if (offset - 16) % 8 == 0 then arg.low else arg.high
    else 0
  }

  /** The layout of struct seccomp_data: the number, the architecture, and then 64-bit values with the lower
      half first, the instruction pointer and six arguments. */
  lemma {:induction false} DataLayout(data: SeccompData, i: nat)
    requires i < 6
    ensures WordAt(data, 0) == data.nr && WordAt(data, 4) == data.arch
    ensures WordAt(data, 8) == data.instructionPointer.low && WordAt(data, 12) == data.instructionPointer.high
    ensures WordAt(data, 16 + 8 * i) == data.args[i].low && WordAt(data, 20 + 8 * i) == data.args[i].high
    ensures OffsetOfArg(i) == 16 + 8 * i
  {
  }

  /** The bitwise conjunction of the two is not 0. */
  predicate AnyBitSet(word: Word, mask: Word)
    decreases mask
  {
    mask != 0 && ((word % 2 == 1 && mask % 2 == 1) || AnyBitSet(word / 2, mask / 2))
  }

  /** How far an instruction moves the program counter. */
  function Advance(instruction: Instruction, accumulator: Word): (n: nat)
    ensures n > 0
  {
    match instruction
    case JumpIfSet(mask, jt, jf) => 1 + if AnyBitSet(accumulator, mask) then jt else jf
    case JumpIfEqual(value, jt, jf) => 1 + if accumulator == value then jt else jf
    case _ => 1
  }

  function Accumulate(instruction: Instruction, accumulator: Word, data: SeccompData): (word: Word) {
    if instruction.LoadWord? then WordAt(data, instruction.offset) else accumulator
  }

  /** The action a program returns, or None if it runs off its end. */
  function Run(program: seq<Instruction>, pc: nat, accumulator: Word, data: SeccompData): (action: Option<Word>)
    decreases |program| - pc
  {
    if pc >= |program| then None
    else
      var instruction := program[pc];
      if instruction.Return? then Some(instruction.action)
      else Run(program, pc + Advance(instruction, accumulator), Accumulate(instruction, accumulator, data), data)
  }

  /** What the kernel checks of each instruction before it accepts a filter. */
  predicate Checked(program: seq<Instruction>, pc: nat)
    requires pc < |program|
  {
    match program[pc]
    case LoadWord(offset) => offset < 64 && offset % 4 == 0 && pc + 1 < |program|
    case JumpIfSet(_, jt, jf) => pc + 1 + jt < |program| && pc + 1 + jf < |program|
    case JumpIfEqual(_, jt, jf) => pc + 1 + jt < |program| && pc + 1 + jf < |program|
    case Return(_) => true
  }

  predicate Accepted(program: seq<Instruction>) {
    0 < |program| && forall pc | 0 <= pc < |program| :: Checked(program, pc)
  }

  /** An accepted program ends in a return, from wherever it is entered. */
  lemma {:induction false} AcceptedReturns(program: seq<Instruction>, pc: nat, accumulator: Word, data: SeccompData)
    requires Accepted(program) && pc < |program|
    ensures Run(program, pc, accumulator, data).Some?
    decreases |program| - pc
  {
    var instruction := program[pc];
    assert Checked(program, pc);
    if !instruction.Return? {
      AcceptedReturns(program, pc + Advance(instruction, accumulator), Accumulate(instruction, accumulator, data),
                      data);
    }
  }

  /** A program placed behind another runs as it would alone. */
  lemma {:induction false} RunBehind(front: seq<Instruction>, program: seq<Instruction>, pc: nat, accumulator: Word,
                                     data: SeccompData)
    ensures Run(front + program, |front| + pc, accumulator, data) == Run(program, pc, accumulator, data)
    decreases |program| - pc
  {
    if pc < |program| {
      var instruction := program[pc];
      assert (front + program)[|front| + pc] == instruction;
      if !instruction.Return? {
        RunBehind(front, program, pc + Advance(instruction, accumulator), Accumulate(instruction, accumulator, data),
                  data);
      }
    }
  }

  // ---------------------------------------------------------------------------
  // The filter

  const RET_USER_NOTIF: Word := 0x7fc0_0000
  const RET_ALLOW: Word := 0x7fff_0000
  const AUDIT_ARCH_64BIT: Word := 0x8000_0000
  const SIOCSIFFLAGS: Word := 0x8914
  const I386_NR_SOCKETCALL: Word := 102
  const SYS_BIND: Word := 2
  const SYS_LISTEN: Word := 4
  const ARMV7_NR_BIND: Word := 282
  const ARMV7_NR_LISTEN: Word := 284

  /** The two builds differ in the native call numbers and in the block for 32-bit callers. */
  datatype Build = X86 | Arm

  function NrBind(build: Build): (nr: Word) { if build.X86? then 49 else 200 }

  function NrListen(build: Build): (nr: Word) { if build.X86? then 50 else 201 }

  function NrIoctl(build: Build): (nr: Word) { if build.X86? then 16 else 29 }

  function NativeBlock(build: Build): (block: seq<Instruction>) {
    [ LoadWord(OFFSET_ARCH),
      JumpIfSet(AUDIT_ARCH_64BIT, 0, 8),
      LoadWord(OFFSET_NR),
      JumpIfEqual(NrBind(build), 4, 0),
      JumpIfEqual(NrListen(build), 3, 0),
      JumpIfEqual(NrIoctl(build), 0, 3),
      LoadWord(OffsetOfArg(1)),
      JumpIfEqual(SIOCSIFFLAGS, 0, 1),
      Return(RET_USER_NOTIF),
      Return(RET_ALLOW) ]
  }

  function CompatBlock(build: Build): (block: seq<Instruction>) {
    if build.X86? then
      [ LoadWord(OFFSET_NR),
        JumpIfEqual(I386_NR_SOCKETCALL, 0, 4),
        LoadWord(OffsetOfArg(0)),
        JumpIfEqual(SYS_BIND, 1, 0),
        JumpIfEqual(SYS_LISTEN, 0, 1),
        Return(RET_USER_NOTIF),
        Return(RET_ALLOW) ]
    else
      [ LoadWord(OFFSET_NR),
        JumpIfEqual(ARMV7_NR_BIND, 1, 0),
        JumpIfEqual(ARMV7_NR_LISTEN, 0, 1),
        Return(RET_USER_NOTIF),
        Return(RET_ALLOW) ]
  }

  function Filter(build: Build): (program: seq<Instruction>) {
    NativeBlock(build) + CompatBlock(build)
  }

  // ---------------------------------------------------------------------------
  // What it is meant to stop

  datatype Kind = BindKind | ListenKind | InterfaceKind | Other

  predicate Is64Bit(data: SeccompData) {
    AnyBitSet(data.arch, AUDIT_ARCH_64BIT)
  }

  /** The calls to stop, by the numbers of the kernel's tables: bind, listen, and ioctl with SIOCSIFFLAGS; for
      32-bit callers of the x86 build, the bind and listen of socketcall. */
  function Intended(build: Build, data: SeccompData): (kind: Kind) {
    if Is64Bit(data) then
      if data.nr == (if build.X86? then 49 else 200) then BindKind
      else if data.nr == (if build.X86? then 50 else 201) then ListenKind
      else if data.nr == (if build.X86? then 16 else 29) && data.args[1].low == 0x8914 then InterfaceKind
      else Other
    else if build.X86? then
      if data.nr != 102 then Other
      else if data.args[0].low == 2 then BindKind
      else if data.args[0].low == 4 then ListenKind
      else Other
    else
      if data.nr == 282 then BindKind
      else if data.nr == 284 then ListenKind
      else Other
  }

  function Verdict(kind: Kind): (action: Word) {
    if kind.Other? then 0x7fff_0000 else 0x7fc0_0000
  }

  lemma {:induction false} FilterAccepted(build: Build)
    ensures Accepted(Filter(build))
  {
  }

  /** From its eighth instruction on, the native block decides alone. */
  lemma {:induction false} NativeTail(build: Build, next: seq<Instruction>, data: SeccompData, accumulator: Word)
    ensures var program := NativeBlock(build) + next;
            && Run(program, 9, accumulator, data) == Some(RET_ALLOW)
            && Run(program, 8, accumulator, data) == Some(RET_USER_NOTIF)
            && Run(program, 7, accumulator, data) ==
               Some(if accumulator == SIOCSIFFLAGS then RET_USER_NOTIF else RET_ALLOW)
  {
  }

  lemma {:induction false} NativeMiddle(build: Build, next: seq<Instruction>, data: SeccompData, accumulator: Word)
    ensures var program := NativeBlock(build) + next;
            Run(program, 3, accumulator, data) ==
            if accumulator == NrBind(build) || accumulator == NrListen(build) then Some(RET_USER_NOTIF)
            else if accumulator == NrIoctl(build) && data.args[1].low == SIOCSIFFLAGS then Some(RET_USER_NOTIF)
            else Some(RET_ALLOW)
  {
    var program := NativeBlock(build) + next;
    NativeTail(build, next, data, accumulator);
    NativeTail(build, next, data, data.args[1].low);
    assert program[3] == JumpIfEqual(NrBind(build), 4, 0);
    assert program[4] == JumpIfEqual(NrListen(build), 3, 0);
    assert program[5] == JumpIfEqual(NrIoctl(build), 0, 3);
    assert program[6] == LoadWord(OffsetOfArg(1));
    assert WordAt(data, OffsetOfArg(1)) == data.args[1].low;
    assert Run(program, 6, accumulator, data) == Run(program, 7, data.args[1].low, data);
    assert Run(program, 5, accumulator, data) ==
        if accumulator == NrIoctl(build) then Run(program, 6, accumulator, data)
        else Run(program, 9, accumulator, data);
    assert Run(program, 4, accumulator, data) ==
        if accumulator == NrListen(build) then Run(program, 8, accumulator, data)
        else Run(program, 5, accumulator, data);
  }

  lemma {:induction false} NativeHead(build: Build, next: seq<Instruction>, data: SeccompData, accumulator: Word)
    ensures var program := NativeBlock(build) + next;
            Run(program, 0, accumulator, data) ==
            if Is64Bit(data) then Run(program, 3, data.nr, data) else Run(program, 10, data.arch, data)
  {
    var program := NativeBlock(build) + next;
    assert program[0] == LoadWord(OFFSET_ARCH) && program[1] == JumpIfSet(AUDIT_ARCH_64BIT, 0, 8)
           && program[2] == LoadWord(OFFSET_NR);
    assert Run(program, 0, accumulator, data) == Run(program, 1, data.arch, data);
    assert Run(program, 1, data.arch, data) ==
        if Is64Bit(data) then Run(program, 2, data.arch, data) else Run(program, 10, data.arch, data);
    assert Run(program, 2, data.arch, data) == Run(program, 3, data.nr, data);
  }

  /** The native block settles every 64-bit call and hands every other call to whatever block comes
      next, with no offset depending on what that is. */
  lemma {:induction false} NativeBlockComposes(build: Build, next: seq<Instruction>, data: SeccompData,
                                               accumulator: Word)
    ensures Run(NativeBlock(build) + next, 0, accumulator, data) ==
            if Is64Bit(data) then Some(Verdict(Intended(build, data))) else Run(next, 0, data.arch, data)
  {
    NativeHead(build, next, data, accumulator);
    NativeMiddle(build, next, data, data.nr);
    RunBehind(NativeBlock(build), next, 0, data.arch, data);
    assert |NativeBlock(build)| == 10;
  }

  lemma {:induction false} CompatBlockDecides(build: Build, data: SeccompData, accumulator: Word)
    requires !Is64Bit(data)
    ensures Run(CompatBlock(build), 0, accumulator, data) == Some(Verdict(Intended(build, data)))
  {
    var program := CompatBlock(build);
    var nr := data.nr;
    assert Run(program, 0, accumulator, data) == Run(program, 1, nr, data);
    if build.X86? {
      var arg := data.args[0].low;
      assert WordAt(data, OffsetOfArg(0)) == arg;
      assert Run(program, 1, nr, data) ==
          if nr == I386_NR_SOCKETCALL then Run(program, 2, nr, data) else Run(program, 6, nr, data);
      assert Run(program, 2, nr, data) == Run(program, 3, arg, data);
      assert Run(program, 3, arg, data) ==
          if arg == SYS_BIND then Run(program, 5, arg, data) else Run(program, 4, arg, data);
      assert Run(program, 4, arg, data) ==
          if arg == SYS_LISTEN then Run(program, 5, arg, data) else Run(program, 6, arg, data);
    } else {
      assert Run(program, 1, nr, data) ==
          if nr == ARMV7_NR_BIND then Run(program, 3, nr, data) else Run(program, 2, nr, data);
      assert Run(program, 2, nr, data) ==
          if nr == ARMV7_NR_LISTEN then Run(program, 3, nr, data) else Run(program, 4, nr, data);
    }
  }

  /** On every input the filter ends within bounds and notifies exactly for the intended calls. */
  lemma {:induction false} FilterNotifiesExactly(build: Build, data: SeccompData)
    ensures Run(Filter(build), 0, 0, data) == Some(Verdict(Intended(build, data)))
  {
    NativeBlockComposes(build, CompatBlock(build), data, 0);
    if !Is64Bit(data) {
      CompatBlockDecides(build, data, data.arch);
    }
  }

  // ---------------------------------------------------------------------------
  // Handlers and decoder

  datatype Handler = PortTracker | InterfaceState

  /** The table is keyed by call number alone, whichever ABI the call came from. */
  function Handlers(build: Build): (table: map<Word, Handler>) {
    if build.X86? then
      map[NrBind(build) := PortTracker, NrListen(build) := PortTracker, I386_NR_SOCKETCALL := PortTracker,
          NrIoctl(build) := InterfaceState]
    else
      map[NrBind(build) := PortTracker, NrListen(build) := PortTracker, ARMV7_NR_BIND := PortTracker,
          ARMV7_NR_LISTEN := PortTracker, NrIoctl(build) := InterfaceState]
  }

  /** Every call that is stopped has a handler, and the right one. */
  lemma {:induction false} EveryNotifiedCallHasItsHandler(build: Build, data: SeccompData)
    requires Run(Filter(build), 0, 0, data) == Some(RET_USER_NOTIF)
    ensures data.nr in Handlers(build)
    ensures Handlers(build)[data.nr] == if Intended(build, data).InterfaceKind? then InterfaceState else PortTracker
  {
    FilterNotifiesExactly(build, data);
  }

  /** Equality of a 64-bit argument with a small constant. */
  predicate ArgumentIs(argument: Argument, value: Word) {
    argument.high == 0 && argument.low == value
  }

  /** How GetCallInfo reads a call it was handed. */
  function Decode(build: Build, data: SeccompData): (kind: Kind) {
    if build.X86? then
      if Is64Bit(data) then (if data.nr == NrListen(build) then ListenKind else BindKind)
      else if ArgumentIs(data.args[0], SYS_LISTEN) then ListenKind
      else if !ArgumentIs(data.args[0], SYS_BIND) then Other
      else BindKind
    else
      if data.nr == NrListen(build) || data.nr == ARMV7_NR_LISTEN then ListenKind else BindKind
  }

  /** The decoder takes a call it is handed for what the filter stopped it for, except that a
      32-bit x86 caller's first argument must be zero-extended. */
  lemma {:induction false} DecoderAgreesIff(build: Build, data: SeccompData)
    requires Run(Filter(build), 0, 0, data) == Some(RET_USER_NOTIF)
    requires data.nr in Handlers(build) && Handlers(build)[data.nr].PortTracker?
    ensures Decode(build, data) == Intended(build, data) <==>
            (build.X86? && !Is64Bit(data) ==> data.args[0].high == 0)
  {
    FilterNotifiesExactly(build, data);
    EveryNotifiedCallHasItsHandler(build, data);
  }

  function Power(n: nat): (mask: nat)
    ensures mask > 0
  {
    if n == 0 then 1 else 2 * Power(n - 1)
  }

  lemma {:induction false} HighestBit(word: Word, n: nat)
    requires Power(n) < 0x1_0000_0000 && word < 2 * Power(n)
    ensures AnyBitSet(word, Power(n)) <==> word >= Power(n)
    decreases n
  {
    if n > 0 {
      HighestBit(word / 2, n - 1);
    }
  }

  /** What the flag tests is the highest bit. */
  lemma {:induction false} SixtyFourBitIff(data: SeccompData)
    ensures Is64Bit(data) <==> data.arch >= 0x8000_0000
  {
    assert Power(7) == 0x80;
    assert Power(15) == 0x8000;
    assert Power(23) == 0x80_0000;
    assert Power(31) == 0x8000_0000;
    HighestBit(data.arch, 31);
  }

  /** A socketcall of a 32-bit x86 process, with a bit set above the lower half of its first argument. */
  const WIDE_BIND :=
    SeccompData(I386_NR_SOCKETCALL, 0x4000_0003, Argument(0, 0), [Argument(SYS_BIND, 1)] + seq(5, _ => Argument(0, 0)))

  /** It is stopped as a bind and decoded as something else. */
  lemma {:induction false} WideArgumentExample()
    ensures Run(Filter(X86), 0, 0, WIDE_BIND) == Some(RET_USER_NOTIF)
    ensures Intended(X86, WIDE_BIND) == BindKind && Decode(X86, WIDE_BIND) == Other
  {
    assert WIDE_BIND.args[0] == Argument(SYS_BIND, 1);
    SixtyFourBitIff(WIDE_BIND);
    FilterNotifiesExactly(X86, WIDE_BIND);
  }
}
