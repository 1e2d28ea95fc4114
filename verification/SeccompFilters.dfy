/** The seccomp filters as instruction tables, and the policies they are meant to enforce, stated
    without reference to the tables. The policies are written in the numbers of the Linux ABI, the
    tables in their names, as the programs have them. */
module SeccompFilters {
  import opened Wrappers
  import opened Bpf

  const NR: u32 := 0
  const ARCH: u32 := 4
  const ARG1: u32 := 24
  const ARG2: u32 := 32

  const X86_64: u32 := 0xC000_003E
  const I386: u32 := 0x4000_0003
  const X32_SYSCALL_BIT: u32 := 0x4000_0000

  const KILL: u32 := 0x8000_0000
  const ERRNO: u32 := 0x0005_0000
  const USER_NOTIF: u32 := 0x7fc0_0000
  const TRACE: u32 := 0x7ff0_0000
  const ALLOW: u32 := 0x7fff_0000

  const NR_OPEN: u32 := 2
  const NR_LSEEK: u32 := 8
  const NR_MKDIR: u32 := 83
  const NR_OPENAT: u32 := 257
  const NR_MQ_NOTIFY_X86_64: u32 := 244
  const NR_MQ_NOTIFY_I386: u32 := 281
  const NR_MQ_NOTIFY_X32: u32 := 527

  const O_CREAT: u32 := 64
  const O_WRONLY_OR_RDWR: u32 := 3
  const ENOTSUP: u32 := 95

  // ----- the architecture prologue -----

  /** Both tests share one kill instruction. */
  const PROLOGUE: seq<Insn> := [LdAbs(ARCH), Jeq(X86_64, 0, 2), LdAbs(NR), Jge(X32_SYSCALL_BIT, 0, 1), Ret(KILL)]

  /** Each test has its own kill instruction. */
  const PROLOGUE_TWO_KILLS: seq<Insn> :=
    [LdAbs(ARCH), Jeq(X86_64, 1, 0), Ret(KILL), LdAbs(NR), Jge(X32_SYSCALL_BIT, 0, 1), Ret(KILL)]

  /** A 64-bit x86 call that does not come through the x32 ABI. */
  predicate Native(d: SeccompData) {
    d.arch == 0xC000_003E && d.nr < 0x4000_0000
  }

  /** Whatever follows it, the prologue lets native calls through to it with the call number in the
      accumulator, and kills all others. */
  lemma PrologueGuards(suffix: seq<Insn>, acc: u32, d: SeccompData)
    ensures Run(PROLOGUE + suffix, 0, acc, d) ==
            if Native(d) then Run(suffix, 0, d.nr, d) else Some(0x8000_0000)
  {
    var prog := PROLOGUE + suffix;
    assert prog[0] == LdAbs(ARCH) && prog[1] == Jeq(X86_64, 0, 2) && prog[2] == LdAbs(NR);
    assert prog[3] == Jge(X32_SYSCALL_BIT, 0, 1) && prog[4] == Ret(KILL);
    assert Run(prog, 4, d.arch, d) == Run(prog, 4, d.nr, d) == Some(KILL);
    Relocate(PROLOGUE, suffix, 0, d.nr, d);
    assert Run(prog, 3, d.nr, d) == if d.nr >= X32_SYSCALL_BIT then Some(KILL) else Run(suffix, 0, d.nr, d);
    assert Run(prog, 2, d.arch, d) == Run(prog, 3, d.nr, d);
    assert Run(prog, 1, d.arch, d) == if d.arch == X86_64 then Run(prog, 2, d.arch, d) else Some(KILL);
  }

  /** The longer prologue is the same guard. */
  lemma ProloguesAgree(suffix: seq<Insn>, acc: u32, d: SeccompData)
    ensures Run(PROLOGUE_TWO_KILLS + suffix, 0, acc, d) == Run(PROLOGUE + suffix, 0, acc, d)
  {
    var prog := PROLOGUE_TWO_KILLS + suffix;
    assert prog[0] == LdAbs(ARCH) && prog[1] == Jeq(X86_64, 1, 0) && prog[2] == Ret(KILL);
    assert prog[3] == LdAbs(NR) && prog[4] == Jge(X32_SYSCALL_BIT, 0, 1) && prog[5] == Ret(KILL);
    assert Run(prog, 5, d.nr, d) == Run(prog, 2, d.arch, d) == Some(KILL);
    Relocate(PROLOGUE_TWO_KILLS, suffix, 0, d.nr, d);
    assert Run(prog, 4, d.nr, d) == if d.nr >= X32_SYSCALL_BIT then Some(KILL) else Run(suffix, 0, d.nr, d);
    assert Run(prog, 3, d.arch, d) == Run(prog, 4, d.nr, d);
    assert Run(prog, 1, d.arch, d) == if d.arch == X86_64 then Run(prog, 3, d.arch, d) else Some(KILL);
    PrologueGuards(suffix, acc, d);
  }

  // ----- flags -----

  /** Halving both numbers drops a lowest bit that only one of them can have. */
  lemma OverlapHalf(a: nat, b: nat)
    requires b > 0 && b % 2 == 0
    ensures Overlap(a, b) == Overlap(a / 2, b / 2)
  {
  }

  lemma BitOfCreat(a: nat)
    ensures Overlap(a, O_CREAT) <==> a / 64 % 2 == 1
  {
    OverlapHalf(a, 64);
    OverlapHalf(a / 2, 32);
    OverlapHalf(a / 4, 16);
    OverlapHalf(a / 8, 8);
    OverlapHalf(a / 16, 4);
    OverlapHalf(a / 32, 2);
    assert Overlap(a / 64, 1) <==> a / 64 % 2 == 1;
  }

  lemma BitsOfWriting(a: nat)
    ensures Overlap(a, O_WRONLY_OR_RDWR) <==> a % 4 != 0
  {
    assert Overlap(a / 2, 1) == (a / 2 % 2 == 1);
  }

  // ----- opening files -----

  const CONTROL_OPEN: seq<Insn> := [
    Jeq(NR_OPEN, 2, 0), Jeq(NR_OPENAT, 3, 0), Ret(ALLOW),
    LdAbs(ARG1), Ja(1),
    LdAbs(ARG2),
    Jset(O_CREAT, 0, 1), Ret(KILL),
    Jset(O_WRONLY_OR_RDWR, 0, 1), Ret(ERRNO + ENOTSUP),
    Ret(ALLOW)]

  /** Only read-only opens of existing files: creating kills the process, opening for writing
      fails with ENOTSUP; the flags are the second argument of open and the third of openat. */
  function OpenPolicy(d: SeccompData): u32 {
    if !Native(d) then 0x8000_0000
    else if d.nr != 2 && d.nr != 257 then 0x7fff_0000
    else
      var flags := (if d.nr == 2 then d.arg1 else d.arg2) % 0x1_0000_0000;
      if flags / 64 % 2 == 1 then 0x8000_0000
      else if flags % 4 != 0 then 0x0005_0000 + 95
      else 0x7fff_0000
  }

  lemma FlagsPart(flags: u32, d: SeccompData)
    ensures Run(CONTROL_OPEN, 6, flags, d) ==
            Some(if flags / 64 % 2 == 1 then KILL else if flags % 4 != 0 then ERRNO + ENOTSUP else ALLOW)
  {
    BitOfCreat(flags);
    BitsOfWriting(flags);
    var prog := CONTROL_OPEN;
    assert Run(prog, 10, flags, d) == Some(ALLOW) && Run(prog, 9, flags, d) == Some(ERRNO + ENOTSUP);
    assert Run(prog, 7, flags, d) == Some(KILL);
    assert Run(prog, 8, flags, d) == Some(if flags % 4 != 0 then ERRNO + ENOTSUP else ALLOW);
  }

  lemma ControlOpenMeetsPolicy(d: SeccompData)
    ensures Acceptable(PROLOGUE + CONTROL_OPEN)
    ensures Verdict(PROLOGUE + CONTROL_OPEN, d) == Some(OpenPolicy(d))
  {
    PrologueGuards(CONTROL_OPEN, 0, d);
    var prog, open, openat := CONTROL_OPEN, Low(d.arg1), Low(d.arg2);
    FlagsPart(open, d);
    FlagsPart(openat, d);
    assert Run(prog, 4, open, d) == Run(prog, 6, open, d);
    assert Run(prog, 3, d.nr, d) == Run(prog, 4, open, d);
    assert Run(prog, 5, d.nr, d) == Run(prog, 6, openat, d);
    assert Run(prog, 2, d.nr, d) == Some(ALLOW);
    assert Run(prog, 1, d.nr, d) == if d.nr == NR_OPENAT then Run(prog, 5, d.nr, d) else Some(ALLOW);
  }

  const DENY_OPEN: seq<Insn> := [Jeq(NR_OPEN, 2, 0), Jeq(NR_OPENAT, 1, 0), Ret(ALLOW), Ret(KILL)]

  /** Every open or openat kills the process, as does every call that is not native. */
  lemma DenyOpenMeetsPolicy(d: SeccompData)
    ensures Acceptable(PROLOGUE_TWO_KILLS + DENY_OPEN)
    ensures Verdict(PROLOGUE_TWO_KILLS + DENY_OPEN, d) ==
            Some(if Native(d) && d.nr != 2 && d.nr != 257 then 0x7fff_0000 else 0x8000_0000)
  {
    ProloguesAgree(DENY_OPEN, 0, d);
    PrologueGuards(DENY_OPEN, 0, d);
    var prog := DENY_OPEN;
    assert Run(prog, 3, d.nr, d) == Some(KILL) && Run(prog, 2, d.nr, d) == Some(ALLOW);
    assert Run(prog, 1, d.nr, d) == if d.nr == NR_OPENAT then Some(KILL) else Some(ALLOW);
  }

  // ----- a 64-bit argument -----

  const ARG64: seq<Insn> := [
    Jeq(NR_LSEEK, 1, 0), Ret(ALLOW),
    LdAbs(ARG1 + 4), Jeq(0, 1, 0), Ret(ERRNO + 2),
    LdAbs(ARG1), Jgt(1000, 0, 1), Ret(ERRNO + 1),
    Ret(ALLOW)]

  /** Comparing the two 32-bit halves compares the 64-bit offset: lseek is allowed exactly
      for unsigned offsets up to 1000, and the error tells whether the offset fits in 32 bits. */
  lemma Arg64MeetsPolicy(d: SeccompData)
    ensures Acceptable(PROLOGUE + ARG64)
    ensures Verdict(PROLOGUE + ARG64, d) ==
            Some(if !Native(d) then 0x8000_0000
                 else if d.nr != 8 || d.arg1 <= 1000 then 0x7fff_0000
                 else if d.arg1 >= 0x1_0000_0000 then 0x0005_0000 + 2
                 else 0x0005_0000 + 1)
  {
    PrologueGuards(ARG64, 0, d);
    var prog, lo, hi := ARG64, Low(d.arg1), High(d.arg1);
    assert Run(prog, 8, lo, d) == Some(ALLOW) && Run(prog, 7, lo, d) == Some(ERRNO + 1);
    assert Run(prog, 6, lo, d) == Some(if lo > 1000 then ERRNO + 1 else ALLOW);
    assert Run(prog, 5, hi, d) == Run(prog, 6, lo, d);
    assert Run(prog, 4, hi, d) == Some(ERRNO + 2);
    assert Run(prog, 3, hi, d) == if hi == 0 then Run(prog, 5, hi, d) else Some(ERRNO + 2);
    assert Run(prog, 2, d.nr, d) == Run(prog, 3, hi, d);
  }

  // ----- three ABIs -----

  const MULTIARCH: seq<Insn> := [
    LdAbs(ARCH), Jeq(X86_64, 0, 5),
    LdAbs(NR), Jeq(NR_MQ_NOTIFY_X86_64, 0, 1), Ret(ERRNO + NR_MQ_NOTIFY_X86_64),
    Jeq(NR_MQ_NOTIFY_X32 + X32_SYSCALL_BIT, 0, 5), Ret(ERRNO + NR_MQ_NOTIFY_X32),
    Jeq(I386, 0, 4),
    LdAbs(NR), Jeq(NR_MQ_NOTIFY_I386, 0, 1), Ret(ERRNO + NR_MQ_NOTIFY_I386),
    Ret(ALLOW),
    Ret(KILL)]

  datatype Abi = X86_64Abi | X32Abi | I386Abi

  /** Under which ABI the call is made; x32 calls carry bit 30. */
  function AbiOf(d: SeccompData): Option<Abi> {
    if d.arch == 0xC000_003E then Some(if d.nr / 0x4000_0000 % 2 == 1 then X32Abi else X86_64Abi)
    else if d.arch == 0x4000_0003 then Some(I386Abi)
    else None
  }

  /** The number of mq_notify under an ABI, without the x32 bit. */
  function MqNotifyNr(abi: Abi): u32 {
    match abi
    case X86_64Abi => 244
    case X32Abi => 527
    case I386Abi => 281
  }

  /** mq_notify fails, under each ABI, with its own number as error; other calls are
      allowed, and other architectures killed. */
  function MqNotifyPolicy(d: SeccompData): u32 {
    match AbiOf(d)
    case None => 0x8000_0000
    case Some(abi) =>
      if d.nr == MqNotifyNr(abi) + (if abi.X32Abi? then 0x4000_0000 else 0)
      then 0x0005_0000 + MqNotifyNr(abi) else 0x7fff_0000
  }

  lemma MultiarchMeetsPolicy(d: SeccompData)
    ensures Acceptable(MULTIARCH)
    ensures Verdict(MULTIARCH, d) == Some(MqNotifyPolicy(d))
  {
    var prog, arch, nr := MULTIARCH, d.arch, d.nr;
    assert Run(prog, 12, arch, d) == Some(KILL) && Run(prog, 11, nr, d) == Some(ALLOW);
    assert Run(prog, 9, nr, d) == if nr == NR_MQ_NOTIFY_I386 then Some(ERRNO + NR_MQ_NOTIFY_I386) else Some(ALLOW);
    assert Run(prog, 8, arch, d) == Run(prog, 9, nr, d);
    assert Run(prog, 7, arch, d) == if arch == I386 then Run(prog, 8, arch, d) else Some(KILL);
    assert Run(prog, 6, nr, d) == Some(ERRNO + NR_MQ_NOTIFY_X32);
    assert Run(prog, 5, nr, d) ==
           if nr == NR_MQ_NOTIFY_X32 + X32_SYSCALL_BIT then Run(prog, 6, nr, d) else Some(ALLOW);
    assert Run(prog, 4, nr, d) == Some(ERRNO + NR_MQ_NOTIFY_X86_64);
    assert Run(prog, 3, nr, d) == if nr == NR_MQ_NOTIFY_X86_64 then Run(prog, 4, nr, d) else Run(prog, 5, nr, d);
    assert Run(prog, 2, arch, d) == Run(prog, 3, nr, d);
    assert Run(prog, 1, arch, d) == if arch == X86_64 then Run(prog, 2, arch, d) else Run(prog, 7, arch, d);
  }

  // ----- two filters at once -----

  const NOTIFY_MKDIR: seq<Insn> := [Jeq(NR_MKDIR, 0, 1), Ret(USER_NOTIF), Ret(ALLOW)]

  /** The second filter before its last entry is filled in. */
  const FILTER2: seq<Insn> := [Jeq(NR_MKDIR, 1, 0), Ret(ALLOW), Ret(0)]

  /** Builds the table and overwrites its last entry with the return chosen on the command line. */
  method InstallFilter2(secondFilter: u32) returns (filter: array<Insn>)
    ensures filter[..] == PROLOGUE + [Jeq(NR_MKDIR, 1, 0), Ret(ALLOW), Ret(SecondVerdict(secondFilter))]
    ensures forall d :: Verdict(filter[..], d) == Some(SecondPolicy(secondFilter, d))
  {
    var table := PROLOGUE + FILTER2;
    filter := new Insn[|table|](i requires 0 <= i < |table| => table[i]);
    filter[filter.Length - 1] := Ret(if secondFilter == ERRNO then ERRNO + ENOTSUP else TRACE);
    assert filter[..] == PROLOGUE + [Jeq(NR_MKDIR, 1, 0), Ret(ALLOW), Ret(SecondVerdict(secondFilter))];
    forall d
      ensures Verdict(filter[..], d) == Some(SecondPolicy(secondFilter, d))
    {
      SecondMeetsPolicy(secondFilter, d);
    }
  }

  /** The second filter alone: mkdir fails with ENOTSUP or is given to a tracer; other native calls are allowed. */
  function SecondPolicy(secondFilter: u32, d: SeccompData): u32 {
    if !Native(d) then 0x8000_0000
    else if d.nr != 83 then 0x7fff_0000
    else if secondFilter == 0x0005_0000 then 0x0005_0000 + 95
    else 0x7ff0_0000
  }

  lemma SecondMeetsPolicy(secondFilter: u32, d: SeccompData)
    ensures var second := PROLOGUE + [Jeq(NR_MKDIR, 1, 0), Ret(ALLOW), Ret(SecondVerdict(secondFilter))];
            Acceptable(second) && Verdict(second, d) == Some(SecondPolicy(secondFilter, d))
  {
    var last := SecondVerdict(secondFilter);
    var tail := [Jeq(NR_MKDIR, 1, 0), Ret(ALLOW), Ret(last)];
    PrologueGuards(tail, 0, d);
    assert Run(tail, 2, d.nr, d) == Some(last) && Run(tail, 1, d.nr, d) == Some(ALLOW);
  }

  /** The first filter alone: mkdir is reported to the supervisor; other native calls are allowed. */
  lemma NotifyMeetsPolicy(d: SeccompData)
    ensures Acceptable(PROLOGUE + NOTIFY_MKDIR)
    ensures Verdict(PROLOGUE + NOTIFY_MKDIR, d) ==
            Some(if !Native(d) then 0x8000_0000 else if d.nr == 83 then 0x7fc0_0000 else 0x7fff_0000)
  {
    PrologueGuards(NOTIFY_MKDIR, 0, d);
    assert Run(NOTIFY_MKDIR, 2, d.nr, d) == Some(ALLOW) && Run(NOTIFY_MKDIR, 1, d.nr, d) == Some(USER_NOTIF);
  }

  function SecondVerdict(secondFilter: u32): u32 {
    if secondFilter == ERRNO then ERRNO + ENOTSUP else TRACE
  }

  /** The kernel compares the upper halves of the verdicts as signed numbers. */
  function Rank(verdict: u32): int {
    var action := verdict - verdict % 0x1_0000;
    if action >= 0x8000_0000 then action - 0x1_0000_0000 else action
  }

  /** With several filters the lowest-ranked verdict wins; on a tie, that of the newest filter. */
  function Prevailing(newest: u32, older: u32): u32 {
    if Rank(older) < Rank(newest) then older else newest
  }

  /** With both filters in place, mkdir still notifies the supervisor if the second filter says
      TRACE, and no longer does if it says ERRNO; everything else is as with one filter. */
  lemma SecondFilterPrecedence(secondFilter: u32, d: SeccompData)
    ensures var second := PROLOGUE + [Jeq(NR_MKDIR, 1, 0), Ret(ALLOW), Ret(SecondVerdict(secondFilter))];
            && Acceptable(second) && Acceptable(PROLOGUE + NOTIFY_MKDIR)
            && Verdict(second, d).Some? && Verdict(PROLOGUE + NOTIFY_MKDIR, d).Some?
            && Prevailing(Verdict(second, d).value, Verdict(PROLOGUE + NOTIFY_MKDIR, d).value) ==
               if !Native(d) then 0x8000_0000
               else if d.nr != 83 then 0x7fff_0000
               else if secondFilter == 0x0005_0000 then 0x0005_0000 + 95
               else 0x7fc0_0000
  {
    SecondMeetsPolicy(secondFilter, d);
    NotifyMeetsPolicy(d);
  }
}
