/** Classic BPF as seccomp runs it: the instructions the filters use, an interpreter, and the
    facts about whole programs that the filters rely on. */
module Bpf {
  import opened Wrappers

  type u8 = x: int | 0 <= x < 0x100
  type u32 = x: int | 0 <= x < 0x1_0000_0000
  type u64 = x: int | 0 <= x < 0x1_0000_0000_0000_0000

  /** What a filter sees of a system call. */
  datatype SeccompData = SeccompData(nr: u32, arch: u32, instructionPointer: u64,
                                     arg0: u64, arg1: u64, arg2: u64, arg3: u64, arg4: u64, arg5: u64)

  datatype Insn =
    | LdAbs(off: u32)
    | Jeq(k: u32, jt: u8, jf: u8)
    | Jge(k: u32, jt: u8, jf: u8)
    | Jgt(k: u32, jt: u8, jf: u8)
    | Jset(k: u32, jt: u8, jf: u8)
    | Ja(k: u32)
    | Ret(k: u32)

  function Low(x: u64): u32 {
    x % 0x1_0000_0000
  }

  function High(x: u64): u32 {
    x / 0x1_0000_0000
  }

  /** The eight 64-bit slots behind nr and arch, on a little-endian machine. */
  function Half(x: u64, second: bool): u32 {
    if second then High(x) else Low(x)
  }

  /** The 32-bit word at byte offset `off` of the data; only aligned words inside it can be loaded. */
  function Load(d: SeccompData, off: u32): Option<u32> {
    if off % 4 != 0 || off >= 64 then None
    else if off == 0 then Some(d.nr)
    else if off == 4 then Some(d.arch)
    else
      var second := off % 8 == 4;
      match off / 8
      case 1 => Some(Half(d.instructionPointer, second))
      case 2 => Some(Half(d.arg0, second))
      case 3 => Some(Half(d.arg1, second))
      case 4 => Some(Half(d.arg2, second))
      case 5 => Some(Half(d.arg3, second))
      case 6 => Some(Half(d.arg4, second))
      case _ => Some(Half(d.arg5, second))
  }

  /** The data as the sixteen 32-bit words it consists of: the call number, the architecture, and then the instruction
      pointer and the six arguments, of each the low word and then the high word. */
  function Words(d: SeccompData): seq<u32> {
    [d.nr, d.arch,
     d.instructionPointer % 0x1_0000_0000, d.instructionPointer / 0x1_0000_0000,
     d.arg0 % 0x1_0000_0000, d.arg0 / 0x1_0000_0000, d.arg1 % 0x1_0000_0000, d.arg1 / 0x1_0000_0000,
     d.arg2 % 0x1_0000_0000, d.arg2 / 0x1_0000_0000, d.arg3 % 0x1_0000_0000, d.arg3 / 0x1_0000_0000,
     d.arg4 % 0x1_0000_0000, d.arg4 / 0x1_0000_0000, d.arg5 % 0x1_0000_0000, d.arg5 / 0x1_0000_0000]
  }

  /** A load takes one of these words, by its byte offset, and nothing else can be loaded. */
  lemma LoadTakesWord(d: SeccompData, off: u32)
    ensures off % 4 == 0 && off < 64 ==> Load(d, off) == Some(Words(d)[off / 4])
    ensures off % 4 != 0 || off >= 64 ==> Load(d, off) == None
  {
  }

  /** Do `a` and `b` have a bit in common? */
  predicate Overlap(a: nat, b: nat)
    decreases a
  {
    a != 0 && b != 0 && ((a % 2 == 1 && b % 2 == 1) || Overlap(a / 2, b / 2))
  }

  function Branch(taken: bool, pc: nat, jt: u8, jf: u8): nat {
    pc + 1 + if taken then jt else jf
  }

  /** The verdict of `prog` from instruction `pc`; None if it runs off its end or loads out of range. */
  function Run(prog: seq<Insn>, pc: nat, acc: u32, d: SeccompData): Option<u32>
    decreases |prog| - pc
  {
    if pc >= |prog| then None
    else
      match prog[pc]
      case LdAbs(off) =>
        (match Load(d, off)
         case None => None
         case Some(w) => Run(prog, pc + 1, w, d))
      case Jeq(k, jt, jf) => Run(prog, Branch(acc == k, pc, jt, jf), acc, d)
      case Jge(k, jt, jf) => Run(prog, Branch(acc >= k, pc, jt, jf), acc, d)
      case Jgt(k, jt, jf) => Run(prog, Branch(acc > k, pc, jt, jf), acc, d)
      case Jset(k, jt, jf) => Run(prog, Branch(Overlap(acc, k), pc, jt, jf), acc, d)
      case Ja(k) => Run(prog, pc + 1 + k, acc, d)
      case Ret(k) => Some(k)
  }

  function Verdict(prog: seq<Insn>, d: SeccompData): Option<u32> {
    Run(prog, 0, 0, d)
  }

  /** The machine, one instruction at a time: where it is, or the verdict with which it has stopped. */
  datatype Config = At(pc: nat, acc: u32) | Halted(verdict: Option<u32>)

  function StepOnce(prog: seq<Insn>, d: SeccompData, c: Config): Config {
    if c.Halted? then c
    else if c.pc >= |prog| then Halted(None)
    else
      var pc, acc := c.pc + 1, c.acc;
      match prog[c.pc]
      case LdAbs(off) => (match Load(d, off) case None => Halted(None) case Some(w) => At(pc, w))
      case Jeq(k, jt, jf) => At(if acc == k then pc + jt else pc + jf, acc)
      case Jge(k, jt, jf) => At(if acc >= k then pc + jt else pc + jf, acc)
      case Jgt(k, jt, jf) => At(if acc > k then pc + jt else pc + jf, acc)
      case Jset(k, jt, jf) => At(if Overlap(acc, k) then pc + jt else pc + jf, acc)
      case Ja(k) => At(pc + k, acc)
      case Ret(k) => Halted(Some(k))
  }

  function Steps(prog: seq<Insn>, d: SeccompData, c: Config, n: nat): Config
    decreases n
  {
    if n == 0 then c else Steps(prog, d, StepOnce(prog, d, c), n - 1)
  }

  lemma {:induction false} StaysHalted(prog: seq<Insn>, d: SeccompData, c: Config, n: nat)
    requires c.Halted?
    ensures Steps(prog, d, c, n) == c
    decreases n
  {
    if n > 0 {
      StaysHalted(prog, d, c, n - 1);
    }
  }

  /** One instruction of the machine does not change what the run comes to. */
  lemma StepAgrees(prog: seq<Insn>, pc: nat, acc: u32, d: SeccompData)
    requires pc < |prog|
    ensures var next := StepOnce(prog, d, At(pc, acc));
            if next.At? then pc < next.pc && Run(prog, pc, acc, d) == Run(prog, next.pc, next.acc, d)
            else Run(prog, pc, acc, d) == next.verdict
  {
  }

  // ----- whole programs -----

  predicate InsnOk(insn: Insn, pc: nat, len: nat) {
    match insn
    case LdAbs(off) => off % 4 == 0 && off < 64 && pc + 1 < len
    case Jeq(_, jt, jf) => pc + 1 + jt < len && pc + 1 + jf < len
    case Jge(_, jt, jf) => pc + 1 + jt < len && pc + 1 + jf < len
    case Jgt(_, jt, jf) => pc + 1 + jt < len && pc + 1 + jf < len
    case Jset(_, jt, jf) => pc + 1 + jt < len && pc + 1 + jf < len
    case Ja(k) => pc + 1 + k < len
    case Ret(_) => true
  }

  /** Every jump and every load stays in range, and the last instruction is a return. */
  predicate Acceptable(prog: seq<Insn>) {
    && |prog| > 0 && prog[|prog| - 1].Ret?
    && forall pc | 0 <= pc < |prog| :: InsnOk(prog[pc], pc, |prog|)
  }

  /** An acceptable program gives a verdict, one that it names in a return, for every input, and the machine
      comes to it within as many instructions as the program has left. */
  lemma {:induction false} AcceptableHalts(prog: seq<Insn>, pc: nat, acc: u32, d: SeccompData, n: nat)
    requires Acceptable(prog) && pc < |prog| && n >= |prog| - pc
    ensures Run(prog, pc, acc, d).Some? && Ret(Run(prog, pc, acc, d).value) in prog
    ensures Steps(prog, d, At(pc, acc), n) == Halted(Run(prog, pc, acc, d))
    decreases |prog| - pc
  {
    var next := StepOnce(prog, d, At(pc, acc));
    StepAgrees(prog, pc, acc, d);
    StaysInside(prog, pc, acc, d);
    if next.At? {
      AcceptableHalts(prog, next.pc, next.acc, d, n - 1);
    } else {
      StaysHalted(prog, d, next, n - 1);
    }
  }

  lemma StaysInside(prog: seq<Insn>, pc: nat, acc: u32, d: SeccompData)
    requires Acceptable(prog) && pc < |prog|
    ensures var next := StepOnce(prog, d, At(pc, acc));
            if next.At? then next.pc < |prog| else next.verdict.Some? && Ret(next.verdict.value) in prog
  {
    assert InsnOk(prog[pc], pc, |prog|);
    assert prog[pc] in prog;
  }

  /** Jumps are relative, so a program behaves the same wherever it is placed. */
  lemma {:induction false} Relocate(pre: seq<Insn>, suf: seq<Insn>, pc: nat, acc: u32, d: SeccompData)
    ensures Run(pre + suf, |pre| + pc, acc, d) == Run(suf, pc, acc, d)
    decreases |suf| - pc
  {
    if pc < |suf| {
      assert (pre + suf)[|pre| + pc] == suf[pc];
      match suf[pc]
      case LdAbs(off) =>
        if Load(d, off).Some? {
          Relocate(pre, suf, pc + 1, Load(d, off).value, d);
        }
      case Jeq(k, jt, jf) => Relocate(pre, suf, Branch(acc == k, pc, jt, jf), acc, d);
      case Jge(k, jt, jf) => Relocate(pre, suf, Branch(acc >= k, pc, jt, jf), acc, d);
      case Jgt(k, jt, jf) => Relocate(pre, suf, Branch(acc > k, pc, jt, jf), acc, d);
      case Jset(k, jt, jf) => Relocate(pre, suf, Branch(Overlap(acc, k), pc, jt, jf), acc, d);
      case Ja(k) => Relocate(pre, suf, pc + 1 + k, acc, d);
      case Ret(_) =>
    }
  }
}
