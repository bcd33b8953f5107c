/** The seccomp filter builder (build_filter in native/agentwall-sandbox.c): a compiler from a denylist to
    classic BPF, an interpreter for that BPF, and the meaning the filter is for. */
module Seccomp {
  import opened Wrappers
  import opened Slices

  type Word = bv32

  // ----- the syscall the filter looks at

  /** struct seccomp_data. */
  datatype Data = Data(nr: Word, arch: Word, ip: bv64, args: seq<bv64>)

  predicate IsData(d: Data) { |d.args| == 6 }

  function Low(x: bv64): Word { (x & 0xffff_ffff) as bv32 }

  function High(x: bv64): Word { (x >> 32) as bv32 }

  /** The 32-bit word at a byte offset of struct seccomp_data: nr, arch, instruction pointer, arguments. */
  function Load(d: Data, offset: nat, little: bool): Option<Word>
    requires IsData(d)
  {
    if offset == 0 then Some(d.nr)
    else if offset == 4 then Some(d.arch)
    else if offset % 4 == 0 && 8 <= offset < 64 then
      var x := if offset < 16 then d.ip else d.args[(offset - 16) / 8];
      Some(if (offset % 8 == 0) == little then Low(x) else High(x))
    else None
  }

  const OFF_NR := 0
  const OFF_ARCH := 4

  function ArgLo(little: bool, n: nat): nat { if little then 16 + 8 * n else 16 + 8 * n + 4 }

  /** ARG_LO names the low word of an argument in either byte order. */
  lemma ArgLoIsLow(d: Data, little: bool, n: nat)
    requires IsData(d) && n < 6
    ensures Load(d, ArgLo(little, n), little) == Some(Low(d.args[n]))
  {
    assert (8 * n) / 8 == n && (8 * n + 4) / 8 == n;
  }

  // ----- classic BPF

  /** struct sock_filter, for the five instruction codes the builder uses. */
  datatype Instr =
    | LoadWord(offset: nat)
    | JumpEq(k: Word, jt: nat, jf: nat)
    | JumpGe(k: Word, jt: nat, jf: nat)
    | JumpSet(k: Word, jt: nat, jf: nat)
    | Ret(k: Word)

  datatype Outcome = Return(k: Word) | Fault

  predicate Taken(i: Instr, a: Word)
    requires !i.LoadWord? && !i.Ret?
  {
    match i
    case JumpEq(k, _, _) => a == k
    case JumpGe(k, _, _) => a >= k
    case JumpSet(k, _, _) => a & k != 0
  }

  /** The kernel's interpreter: jumps are relative to the next instruction and only go forward. */
  function Exec(p: seq<Instr>, pc: nat, a: Word, d: Data, little: bool): Outcome
    requires IsData(d)
    decreases |p| - pc
  {
    if pc >= |p| then Fault
    else
      match p[pc]
      case Ret(k) => Return(k)
      case LoadWord(offset) =>
        (match Load(d, offset, little)
         case None => Fault
         case Some(w) => Exec(p, pc + 1, w, d, little))
      case i => Exec(p, pc + 1 + (if Taken(i, a) then i.jt else i.jf), a, d, little)
  }

  // ----- what the filter is for

  datatype Action = Kill | Errno

  datatype Deny = Deny(nr: Word, err: Word)

  /** What the build fixes: the architecture, whether x32 exists on it, and the two argument-checked syscalls
      where they exist. */
  datatype Target = Target(arch: Word, hasX32: bool, clone: Option<Word>, ioctl: Option<Word>, little: bool)

  const RET_KILL_PROCESS: Word := 0x8000_0000
  const RET_ERRNO: Word := 0x0005_0000
  const RET_ALLOW: Word := 0x7fff_0000
  const RET_DATA: Word := 0x0000_ffff
  const EPERM: Word := 1
  const X32_SYSCALL_BIT: Word := 0x4000_0000
  const CLONE_NEWUSER: Word := 0x1000_0000
  const TIOCSTI: Word := 0x5412
  const TIOCLINUX: Word := 0x541c

  function Denied(action: Action, err: Word): Word {
    if action == Kill then RET_KILL_PROCESS else RET_ERRNO | (err & RET_DATA)
  }

  function FirstDeny(list: seq<Deny>, nr: Word): Option<Word> {
    if list == [] then None else if list[0].nr == nr then Some(list[0].err) else FirstDeny(list[1..], nr)
  }

  predicate NewUserNamespace(t: Target, d: Data)
    requires IsData(d)
  {
    t.clone == Some(d.nr) && Low(d.args[0]) & CLONE_NEWUSER != 0
  }

  predicate TerminalInjection(t: Target, d: Data)
    requires IsData(d)
  {
    t.ioctl == Some(d.nr) && (Low(d.args[1]) == TIOCSTI || Low(d.args[1]) == TIOCLINUX)
  }

  function Verdict(t: Target, action: Action, list: seq<Deny>, d: Data): Word
    requires IsData(d)
  {
    if d.arch != t.arch || (t.hasX32 && d.nr >= X32_SYSCALL_BIT) then RET_KILL_PROCESS
    else
      match FirstDeny(list, d.nr)
      case Some(err) => Denied(action, err)
      case None =>
        if NewUserNamespace(t, d) || TerminalInjection(t, d) then Denied(action, EPERM) else RET_ALLOW
  }

  // ----- the program

  function Prologue(t: Target): seq<Instr> {
    [LoadWord(OFF_ARCH), JumpEq(t.arch, 1, 0), Ret(RET_KILL_PROCESS), LoadWord(OFF_NR)]
  }

  function X32(t: Target): seq<Instr> {
    if t.hasX32 then [JumpGe(X32_SYSCALL_BIT, 0, 1), Ret(RET_KILL_PROCESS)] else []
  }

  function Denials(action: Action, list: seq<Deny>): seq<Instr> {
    if list == [] then [] else [JumpEq(list[0].nr, 0, 1), Ret(Denied(action, list[0].err))] + Denials(action, list[1..])
  }

  function CloneCheck(t: Target, action: Action): seq<Instr> {
    match t.clone
    case None => []
    case Some(nr) =>
      [JumpEq(nr, 0, 3), LoadWord(ArgLo(t.little, 0)), JumpSet(CLONE_NEWUSER, 0, 1), Ret(Denied(action, EPERM)), LoadWord(OFF_NR)]
  }

  function IoctlCheck(t: Target, action: Action): seq<Instr> {
    match t.ioctl
    case None => []
    case Some(nr) =>
      [JumpEq(nr, 0, 5), LoadWord(ArgLo(t.little, 1)), JumpEq(TIOCSTI, 0, 1), Ret(Denied(action, EPERM)),
       JumpEq(TIOCLINUX, 0, 1), Ret(Denied(action, EPERM)), LoadWord(OFF_NR)]
  }

  function Program(t: Target, action: Action, list: seq<Deny>): seq<Instr> {
    Prologue(t) + (X32(t) + (Denials(action, list) + (CloneCheck(t, action) + (IoctlCheck(t, action) + [Ret(RET_ALLOW)]))))
  }

  // ----- the builder

  lemma AtIndices(p: seq<Instr>, pc: nat, block: seq<Instr>)
    requires At(p, pc, block)
    ensures pc + |block| <= |p|
    ensures forall k: nat | k < |block| :: p[pc + k] == block[k]
  {
    forall k: nat | k < |block|
      ensures p[pc + k] == block[k]
    {
      assert p[pc..pc + |block|][k] == block[k];
    }
  }

  /** EMIT: one more instruction of `p`, or overflow. */
  method Emit(out: array<Instr>, cap: nat, n: nat, i: Instr, ghost p: seq<Instr>) returns (ok: bool)
    requires cap <= out.Length && n <= cap && n < |p| && p[n] == i && out[..n] == p[..n]
    modifies out
    ensures ok ==> n < cap && out[..n + 1] == p[..n + 1]
    ensures !ok ==> |p| > cap
    ensures forall j | n < j < out.Length :: out[j] == old(out[j])
  {
    if n >= cap { return false; }
    out[n] := i;
    assert out[..n + 1] == out[..n] + [i] && p[..n + 1] == p[..n] + [i];
    return true;
  }

  /** DENY_RET. */
  method EmitDenyRet(out: array<Instr>, cap: nat, n: nat, action: Action, err: Word, ghost p: seq<Instr>) returns (ok: bool)
    requires cap <= out.Length && n <= cap && n < |p| && p[n] == Ret(Denied(action, err)) && out[..n] == p[..n]
    modifies out
    ensures ok ==> n < cap && out[..n + 1] == p[..n + 1]
    ensures !ok ==> |p| > cap
  {
    if action == Kill {
      ok := Emit(out, cap, n, Ret(RET_KILL_PROCESS), p);
    } else {
      ok := Emit(out, cap, n, Ret(RET_ERRNO | (err & RET_DATA)), p);
    }
  }

  /** Where each part of the program lies. */
  lemma Parts(t: Target, action: Action, list: seq<Deny>)
    ensures var p := Program(t, action, list);
            var b := 4 + |X32(t)|;
            var c := b + |Denials(action, list)|;
            var e := c + |CloneCheck(t, action)|;
            var f := e + |IoctlCheck(t, action)|;
            && |p| == f + 1
            && p[..4] == Prologue(t) && p[4..b] == X32(t) && p[b..c] == Denials(action, list)
            && p[c..e] == CloneCheck(t, action) && p[e..f] == IoctlCheck(t, action) && p[f..f + 1] == [Ret(RET_ALLOW)]
  {
    hide Prologue, X32, Denials, CloneCheck, IoctlCheck;
    var last := [Ret(RET_ALLOW)];
    var q4 := IoctlCheck(t, action) + last;
    var q3 := CloneCheck(t, action) + q4;
    var q2 := Denials(action, list) + q3;
    var q1 := X32(t) + q2;
    assert |Prologue(t)| == 4 by { PrologueLength(t); }
    var p := Program(t, action, list);
    var b := 4 + |X32(t)|;
    var c := b + |Denials(action, list)|;
    var e := c + |CloneCheck(t, action)|;
    assert p[4..] == q1 && p[b..] == q2 && p[c..] == q3 && p[e..] == q4;
  }

  lemma PrologueLength(t: Target)
    ensures |Prologue(t)| == 4
  {
  }

  lemma {:induction false} DenialAt(action: Action, list: seq<Deny>, i: nat)
    requires i < |list|
    ensures |Denials(action, list)| == 2 * |list|
    ensures Denials(action, list)[2 * i..2 * i + 2] == [JumpEq(list[i].nr, 0, 1), Ret(Denied(action, list[i].err))]
    decreases list
  {
    hide Denied;
    var d, r := Denials(action, list), Denials(action, list[1..]);
    var block := [JumpEq(list[0].nr, 0, 1), Ret(Denied(action, list[0].err))];
    assert d == block + r;
    if |list| == 1 {
      assert Denials(action, []) == [];
      assert d[0..2] == block;
    } else if i == 0 {
      DenialAt(action, list[1..], 0);
      assert d[0..2] == block;
    } else {
      DenialAt(action, list[1..], i - 1);
      assert d[2 * i..2 * i + 2] == r[2 * (i - 1)..2 * (i - 1) + 2];
    }
  }

  method EmitHead(t: Target, out: array<Instr>, cap: nat, ghost p: seq<Instr>) returns (ok: bool, n: nat)
    requires cap <= out.Length && At(p, 0, Prologue(t)) && At(p, 4, X32(t))
    modifies out
    ensures ok ==> n == 4 + |X32(t)| <= cap && out[..n] == p[..n]
    ensures !ok ==> |p| > cap
  {
    AtIndices(p, 0, Prologue(t));
    AtIndices(p, 4, X32(t));
    n := 0;
    ok := Emit(out, cap, 0, LoadWord(OFF_ARCH), p);
    if !ok { return; }
    ok := Emit(out, cap, 1, JumpEq(t.arch, 1, 0), p);
    if !ok { return; }
    ok := Emit(out, cap, 2, Ret(RET_KILL_PROCESS), p);
    if !ok { return; }
    ok := Emit(out, cap, 3, LoadWord(OFF_NR), p);
    if !ok { return; }
    n := 4;
    if t.hasX32 {
      assert p[4 + 0] == X32(t)[0] && p[4 + 1] == X32(t)[1];
      ok := Emit(out, cap, 4, JumpGe(X32_SYSCALL_BIT, 0, 1), p);
      if !ok { return; }
      ok := Emit(out, cap, 5, Ret(RET_KILL_PROCESS), p);
      if !ok { return; }
      n := 6;
    }
  }

  method EmitDenials(list: seq<Deny>, out: array<Instr>, cap: nat, start: nat, action: Action, ghost p: seq<Instr>)
    returns (ok: bool, n: nat)
    requires cap <= out.Length && start <= cap && At(p, start, Denials(action, list)) && out[..start] == p[..start]
    modifies out
    ensures ok ==> n == start + |Denials(action, list)| <= cap && out[..n] == p[..n]
    ensures !ok ==> |p| > cap
  {
    hide Denied, Denials;
    n := start;
    DenialsLength(action, list);
    AtIndices(p, start, Denials(action, list));
    for i := 0 to |list|
      invariant n == start + 2 * i <= cap && out[..n] == p[..n]
    {
      DenialAt(action, list, i);
      var b := Denials(action, list);
      assert b[2 * i] == b[2 * i..2 * i + 2][0] && b[2 * i + 1] == b[2 * i..2 * i + 2][1];
      assert p[start + 2 * i] == b[2 * i] && p[start + (2 * i + 1)] == b[2 * i + 1];
      ok := Emit(out, cap, n, JumpEq(list[i].nr, 0, 1), p);
      if !ok { return; }
      n := n + 1;
      ok := EmitDenyRet(out, cap, n, action, list[i].err, p);
      if !ok { return; }
      n := n + 1;
    }
    ok := true;
  }

  method EmitCloneCheck(t: Target, out: array<Instr>, cap: nat, start: nat, action: Action, ghost p: seq<Instr>)
    returns (ok: bool, n: nat)
    requires cap <= out.Length && start <= cap && At(p, start, CloneCheck(t, action)) && out[..start] == p[..start]
    modifies out
    ensures ok ==> n == start + |CloneCheck(t, action)| <= cap && out[..n] == p[..n]
    ensures !ok ==> |p| > cap
  {
    hide Denied;
    n := start;
    if t.clone.None? { return true, n; }
    var b := CloneCheck(t, action);
    AtIndices(p, start, b);
    assert p[start + 0] == b[0] && p[start + 1] == b[1] && p[start + 2] == b[2] && p[start + 3] == b[3] && p[start + 4] == b[4];
    ok := Emit(out, cap, n, JumpEq(t.clone.value, 0, 3), p);
    if !ok { return; }
    ok := Emit(out, cap, n + 1, LoadWord(ArgLo(t.little, 0)), p);
    if !ok { return; }
    ok := Emit(out, cap, n + 2, JumpSet(CLONE_NEWUSER, 0, 1), p);
    if !ok { return; }
    ok := EmitDenyRet(out, cap, n + 3, action, EPERM, p);
    if !ok { return; }
    ok := Emit(out, cap, n + 4, LoadWord(OFF_NR), p);
    n := n + 5;
  }

  method EmitIoctlCheck(t: Target, out: array<Instr>, cap: nat, start: nat, action: Action, ghost p: seq<Instr>)
    returns (ok: bool, n: nat)
    requires cap <= out.Length && start <= cap && At(p, start, IoctlCheck(t, action)) && out[..start] == p[..start]
    modifies out
    ensures ok ==> n == start + |IoctlCheck(t, action)| <= cap && out[..n] == p[..n]
    ensures !ok ==> |p| > cap
  {
    hide Denied;
    n := start;
    if t.ioctl.None? { return true, n; }
    var b := IoctlCheck(t, action);
    AtIndices(p, start, b);
    assert p[start + 0] == b[0] && p[start + 1] == b[1] && p[start + 2] == b[2] && p[start + 3] == b[3];
    assert p[start + 4] == b[4] && p[start + 5] == b[5] && p[start + 6] == b[6];
    ok := Emit(out, cap, n, JumpEq(t.ioctl.value, 0, 5), p);
    if !ok { return; }
    ok := Emit(out, cap, n + 1, LoadWord(ArgLo(t.little, 1)), p);
    if !ok { return; }
    ok := Emit(out, cap, n + 2, JumpEq(TIOCSTI, 0, 1), p);
    if !ok { return; }
    ok := EmitDenyRet(out, cap, n + 3, action, EPERM, p);
    if !ok { return; }
    ok := Emit(out, cap, n + 4, JumpEq(TIOCLINUX, 0, 1), p);
    if !ok { return; }
    ok := EmitDenyRet(out, cap, n + 5, action, EPERM, p);
    if !ok { return; }
    ok := Emit(out, cap, n + 6, LoadWord(OFF_NR), p);
    n := n + 7;
  }

  /** build_filter: the program when it fits, and 0 when it does not. */
  method BuildFilter(t: Target, list: seq<Deny>, out: array<Instr>, cap: nat, action: Action) returns (n: nat)
    requires cap <= out.Length
    modifies out
    ensures n <= cap
    ensures if |Program(t, action, list)| <= cap then n > 0 && out[..n] == Program(t, action, list) else n == 0
  {
    hide Denied, Program, Denials, Prologue, X32, CloneCheck, IoctlCheck;
    ghost var p := Program(t, action, list);
    Parts(t, action, list);
    var ok: bool;
    ok, n := EmitHead(t, out, cap, p);
    if !ok { return 0; }
    ok, n := EmitDenials(list, out, cap, n, action, p);
    if !ok { return 0; }
    ok, n := EmitCloneCheck(t, out, cap, n, action, p);
    if !ok { return 0; }
    ok, n := EmitIoctlCheck(t, out, cap, n, action, p);
    if !ok { return 0; }
    assert p[n] == p[n..n + 1][0];
    ok := Emit(out, cap, n, Ret(RET_ALLOW), p);
    if !ok { return 0; }
    assert p[..|p|] == p;
    n := n + 1;
  }

  lemma {:induction false} DenialsLength(action: Action, list: seq<Deny>)
    ensures |Denials(action, list)| == 2 * |list|
  {
    if list != [] { DenialsLength(action, list[1..]); }
  }

  // ----- running the program gives the verdict

  /** The denylist part returns the first match's denial, or falls through with the number still loaded. */
  lemma {:induction false} DenialsRun(p: seq<Instr>, pc: nat, action: Action, list: seq<Deny>, d: Data, little: bool)
    requires IsData(d) && At(p, pc, Denials(action, list))
    ensures |Denials(action, list)| == 2 * |list|
    ensures Exec(p, pc, d.nr, d, little)
         == match FirstDeny(list, d.nr)
            case Some(err) => Return(Denied(action, err))
            case None => Exec(p, pc + 2 * |list|, d.nr, d, little)
    decreases list
  {
    hide Denied, Denials;
    if list == [] {
      NoDenials(action);
    } else {
      DenialStep(p, pc, action, list, d, little);
      DenialsRun(p, pc + 2, action, list[1..], d, little);
    }
  }

  lemma NoDenials(action: Action)
    ensures Denials(action, []) == []
  {
  }

  /** One test and its return: taken on a match, skipped otherwise. */
  lemma DenialStep(p: seq<Instr>, pc: nat, action: Action, list: seq<Deny>, d: Data, little: bool)
    requires IsData(d) && list != [] && At(p, pc, Denials(action, list))
    ensures At(p, pc + 2, Denials(action, list[1..])) && |Denials(action, list)| == 2 + |Denials(action, list[1..])|
    ensures Exec(p, pc, d.nr, d, little)
         == if list[0].nr == d.nr then Return(Denied(action, list[0].err)) else Exec(p, pc + 2, d.nr, d, little)
  {
    hide Denied;
    var all, rest := Denials(action, list), Denials(action, list[1..]);
    AtIndices(p, pc, all);
    assert p[pc + 0] == all[0] && p[pc + 1] == all[1];
    assert all[2..] == rest && p[pc + 2..pc + 2 + |rest|] == p[pc..pc + |all|][2..];
    if list[0].nr == d.nr {
      assert Exec(p, pc + 1, d.nr, d, little) == Return(Denied(action, list[0].err));
    }
  }

  /** One instruction of a run. */
  lemma Step(p: seq<Instr>, pc: nat, a: Word, d: Data, little: bool)
    requires IsData(d) && pc < |p|
    ensures p[pc].Ret? ==> Exec(p, pc, a, d, little) == Return(p[pc].k)
    ensures p[pc].LoadWord? && Load(d, p[pc].offset, little).Some? ==>
              Exec(p, pc, a, d, little) == Exec(p, pc + 1, Load(d, p[pc].offset, little).value, d, little)
    ensures p[pc].JumpEq? ==> Exec(p, pc, a, d, little) == Exec(p, pc + 1 + (if a == p[pc].k then p[pc].jt else p[pc].jf), a, d, little)
  {
  }

  lemma NumberLoads(d: Data, little: bool)
    requires IsData(d)
    ensures Load(d, OFF_NR, little) == Some(d.nr)
  {
  }

  lemma CloneRun(p: seq<Instr>, pc: nat, t: Target, action: Action, d: Data)
    requires IsData(d) && At(p, pc, CloneCheck(t, action))
    ensures Exec(p, pc, d.nr, d, t.little)
         == if NewUserNamespace(t, d) then Return(Denied(action, EPERM))
            else Exec(p, pc + |CloneCheck(t, action)|, d.nr, d, t.little)
  {
    hide Denied, Low, High;
    var b := CloneCheck(t, action);
    AtIndices(p, pc, b);
    if t.clone.Some? {
      assert p[pc] == b[0] && p[pc + 1] == b[1] && p[pc + 2] == b[2] && p[pc + 3] == b[3] && p[pc + 4] == b[4];
      ArgLoIsLow(d, t.little, 0);
      var w := Low(d.args[0]);
      assert Exec(p, pc + 4, d.nr, d, t.little) == Exec(p, pc + 5, d.nr, d, t.little);
      assert Exec(p, pc + 4, w, d, t.little) == Exec(p, pc + 5, d.nr, d, t.little);
      assert Exec(p, pc + 3, w, d, t.little) == Return(Denied(action, EPERM));
      assert Exec(p, pc + 1, d.nr, d, t.little) == Exec(p, pc + 2, w, d, t.little);
    }
  }

  lemma IoctlRun(p: seq<Instr>, pc: nat, t: Target, action: Action, d: Data)
    requires IsData(d) && At(p, pc, IoctlCheck(t, action))
    ensures Exec(p, pc, d.nr, d, t.little)
         == if TerminalInjection(t, d) then Return(Denied(action, EPERM))
            else Exec(p, pc + |IoctlCheck(t, action)|, d.nr, d, t.little)
  {
    hide Denied, Low, High, Load, ArgLo, At, Exec;
    var b := IoctlCheck(t, action);
    AtIndices(p, pc, b);
    if t.ioctl.Some? {
      NumberLoads(d, t.little);
      assert p[pc] == b[0] && p[pc + 1] == b[1] && p[pc + 2] == b[2] && p[pc + 3] == b[3];
      assert p[pc + 4] == b[4] && p[pc + 5] == b[5] && p[pc + 6] == b[6];
      ArgLoIsLow(d, t.little, 1);
      var w := Low(d.args[1]);
      Step(p, pc, d.nr, d, t.little);
      Step(p, pc + 1, d.nr, d, t.little);
      Step(p, pc + 2, w, d, t.little);
      Step(p, pc + 3, w, d, t.little);
      Step(p, pc + 4, w, d, t.little);
      Step(p, pc + 5, w, d, t.little);
      Step(p, pc + 6, w, d, t.little);
      Step(p, pc + 6, d.nr, d, t.little);
    }
  }

  /** Whatever the denylist, running the program on any syscall gives the specified verdict. */
  lemma CompilationPreservesMeaning(t: Target, action: Action, list: seq<Deny>, d: Data)
    requires IsData(d)
    ensures Exec(Program(t, action, list), 0, 0, d, t.little) == Return(Verdict(t, action, list, d))
  {
    hide Program, Denials, CloneCheck, IoctlCheck, Denied, FirstDeny, NewUserNamespace, TerminalInjection;
    var p := Program(t, action, list);
    Parts(t, action, list);
    var b := 4 + |X32(t)|;
    var c := b + |Denials(action, list)|;
    var e := c + |CloneCheck(t, action)|;
    PrologueRuns(p, t, d);
    DenialsRun(p, b, action, list, d, t.little);
    CloneRun(p, c, t, action, d);
    IoctlRun(p, e, t, action, d);
    assert p[|p| - 1] == p[|p| - 1..|p|][0];
  }

  lemma PrologueRuns(p: seq<Instr>, t: Target, d: Data)
    requires IsData(d) && At(p, 0, Prologue(t)) && At(p, 4, X32(t))
    ensures Exec(p, 0, 0, d, t.little)
         == if d.arch != t.arch || (t.hasX32 && d.nr >= X32_SYSCALL_BIT) then Return(RET_KILL_PROCESS)
            else Exec(p, 4 + |X32(t)|, d.nr, d, t.little)
  {
    AtIndices(p, 0, Prologue(t));
    AtIndices(p, 4, X32(t));
    var q := Prologue(t);
    assert p[0] == q[0] && p[1] == q[1] && p[2] == q[2] && p[3] == q[3];
    assert Exec(p, 3, d.arch, d, t.little) == Exec(p, 4, d.nr, d, t.little);
    assert Exec(p, 0, 0, d, t.little) == Exec(p, 1, d.arch, d, t.little);
    assert Exec(p, 1, d.arch, d, t.little)
        == if d.arch == t.arch then Exec(p, 3, d.arch, d, t.little) else Return(RET_KILL_PROCESS);
    if t.hasX32 {
      var x := X32(t);
      assert p[4 + 0] == x[0] && p[4 + 1] == x[1];
      assert Exec(p, 5, d.nr, d, t.little) == Return(RET_KILL_PROCESS);
    }
  }

  // ----- every jump is short and lands inside

  predicate JumpOk(p: seq<Instr>, i: nat)
    requires i < |p|
  {
    match p[i]
    case Ret(_) => true
    case LoadWord(_) => i + 1 < |p|
    case j => j.jt <= 5 && j.jf <= 5 && i + 1 + j.jt < |p| && i + 1 + j.jf < |p|
  }

  /** Every jump of a block, if the block is followed by at least one more instruction, lands by then. */
  predicate Contained(b: seq<Instr>) {
    forall i: nat | i < |b| ::
      match b[i]
      case Ret(_) => true
      case LoadWord(_) => true
      case j => j.jt <= 5 && j.jf <= 5 && i + 1 + j.jt <= |b| && i + 1 + j.jf <= |b|
  }

  lemma ContainedConcat(a: seq<Instr>, b: seq<Instr>)
    requires Contained(a) && Contained(b)
    ensures Contained(a + b)
  {
    forall i: nat | i < |a + b|
      ensures match (a + b)[i]
              case Ret(_) => true
              case LoadWord(_) => true
              case j => j.jt <= 5 && j.jf <= 5 && i + 1 + j.jt <= |a + b| && i + 1 + j.jf <= |a + b|
    {
      if i >= |a| { assert (a + b)[i] == b[i - |a|]; }
    }
  }

  lemma {:induction false} DenialsContained(action: Action, list: seq<Deny>)
    ensures Contained(Denials(action, list))
  {
    hide Denied;
    if list != [] {
      DenialsContained(action, list[1..]);
      ContainedConcat([JumpEq(list[0].nr, 0, 1), Ret(Denied(action, list[0].err))], Denials(action, list[1..]));
    }
  }

  /** However long the denylist, no jump exceeds 5, every jump lands inside the program, and no execution
      runs off its end. */
  lemma JumpsInBounds(t: Target, action: Action, list: seq<Deny>, i: nat)
    requires i < |Program(t, action, list)|
    ensures JumpOk(Program(t, action, list), i)
  {
    hide Denials, Denied, Contained;
    Blocks(t, action);
    DenialsContained(action, list);
    ContainedConcat(CloneCheck(t, action), IoctlCheck(t, action));
    ContainedConcat(Denials(action, list), CloneCheck(t, action) + IoctlCheck(t, action));
    ContainedConcat(X32(t), Denials(action, list) + (CloneCheck(t, action) + IoctlCheck(t, action)));
    ContainedConcat(Prologue(t), X32(t) + (Denials(action, list) + (CloneCheck(t, action) + IoctlCheck(t, action))));
    var body := Prologue(t) + (X32(t) + (Denials(action, list) + (CloneCheck(t, action) + IoctlCheck(t, action))));
    assert Program(t, action, list) == body + [Ret(RET_ALLOW)];
    LandsInside(body, i);
  }

  lemma LandsInside(body: seq<Instr>, i: nat)
    requires Contained(body) && i <= |body|
    ensures JumpOk(body + [Ret(RET_ALLOW)], i)
  {
    if i < |body| { assert (body + [Ret(RET_ALLOW)])[i] == body[i]; }
  }

  lemma Blocks(t: Target, action: Action)
    ensures Contained(Prologue(t)) && Contained(X32(t)) && Contained(CloneCheck(t, action)) && Contained(IoctlCheck(t, action))
  {
    hide Denied;
  }

  // ----- what a filtered process may do, in the kernel's words

  /** Some pair of the denylist has this number. */
  predicate Listed(list: seq<Deny>, nr: Word) { exists i | 0 <= i < |list| :: list[i].nr == nr }

  /** CLONE_NEWUSER among the flags. */
  predicate WantsUserNamespace(flags: bv64) { flags & 0x1000_0000 != 0 }

  /** A request that pushes characters into the terminal; the kernel looks at its low 32 bits. */
  predicate PushesInput(request: bv64) { request & 0xffff_ffff == 0x5412 || request & 0xffff_ffff == 0x541c }

  /** clone for a new user namespace, or ioctl to push input. */
  predicate Checked(t: Target, d: Data)
    requires IsData(d)
  {
    || (t.clone == Some(d.nr) && WantsUserNamespace(d.args[0]))
    || (t.ioctl == Some(d.nr) && PushesInput(d.args[1]))
  }

  /** Another architecture, or on x86-64 a number of the x32 range. */
  predicate Foreign(t: Target, d: Data) { d.arch != t.arch || (t.hasX32 && d.nr >= 0x4000_0000) }

  lemma LowFlags(x: bv64)
    ensures Low(x) & CLONE_NEWUSER != 0 <==> WantsUserNamespace(x)
  {
  }

  lemma LowRequest(x: bv64)
    ensures Low(x) == TIOCSTI || Low(x) == TIOCLINUX <==> PushesInput(x)
  {
  }

  lemma {:induction false} ListedFirst(list: seq<Deny>, nr: Word)
    ensures FirstDeny(list, nr).Some? <==> Listed(list, nr)
    decreases list
  {
    if list != [] {
      ListedFirst(list[1..], nr);
      if Listed(list, nr) && list[0].nr != nr {
        var i :| 0 <= i < |list| && list[i].nr == nr;
        assert list[1..][i - 1] == list[i];
      }
      if Listed(list[1..], nr) {
        var i :| 0 <= i < |list[1..]| && list[1..][i].nr == nr;
        assert list[i + 1].nr == nr;
      }
    }
  }

  lemma {:induction false} FirstOf(list: seq<Deny>, i: nat)
    requires i < |list| && forall j :: 0 <= j < i ==> list[j].nr != list[i].nr
    ensures FirstDeny(list, list[i].nr) == Some(list[i].err)
    decreases i
  {
    if i > 0 { FirstOf(list[1..], i - 1); }
  }

  lemma CheckedExactly(t: Target, d: Data)
    requires IsData(d)
    ensures NewUserNamespace(t, d) || TerminalInjection(t, d) <==> Checked(t, d)
  {
    hide WantsUserNamespace, PushesInput, Low;
    LowFlags(d.args[0]);
    LowRequest(d.args[1]);
  }

  /** SECCOMP_RET_KILL_PROCESS, or SECCOMP_RET_ERRNO with the low half of the error number. */
  function DenialWord(action: Action, err: Word): Word { if action == Kill then 0x8000_0000 else 0x0005_0000 | (err & 0xffff) }

  /** A denial is one of these words, and never the one that allows. */
  lemma DenialIs(action: Action, err: Word)
    ensures Denied(action, err) == DenialWord(action, err)
  {
  }

  lemma NeverAllows(action: Action, err: Word)
    ensures DenialWord(action, err) != 0x7fff_0000
  {
    assert err & 0x0000_ffff != 0x7fff_0000;
    assert (0x0005_0000 as Word) | (err & 0x0000_ffff) != 0x7fff_0000;
  }

  /** The verdict, case by case. */
  lemma VerdictIs(t: Target, action: Action, list: seq<Deny>, d: Data)
    requires IsData(d)
    ensures var v, first := Verdict(t, action, list, d), FirstDeny(list, d.nr);
            && (Foreign(t, d) ==> v == 0x8000_0000)
            && (!Foreign(t, d) && first.Some? ==> v == DenialWord(action, first.value))
            && (!Foreign(t, d) && first.None? && Checked(t, d) ==> v == DenialWord(action, 1))
            && (!Foreign(t, d) && first.None? && !Checked(t, d) ==> v == 0x7fff_0000)
  {
    hide Denied, DenialWord, FirstDeny, NewUserNamespace, TerminalInjection, Checked;
    CheckedExactly(t, d);
    DenialIs(action, EPERM);
    if FirstDeny(list, d.nr).Some? { DenialIs(action, FirstDeny(list, d.nr).value); }
  }

  /** A syscall is allowed exactly when it is of this architecture, is not listed and is not one of the checked uses. */
  lemma AllowedExactly(t: Target, action: Action, list: seq<Deny>, d: Data)
    requires IsData(d)
    ensures Exec(Program(t, action, list), 0, 0, d, t.little) == Return(0x7fff_0000)
       <==> !Foreign(t, d) && !Listed(list, d.nr) && !Checked(t, d)
  {
    hide Program, Exec, Verdict, DenialWord, FirstDeny, Checked, Listed, Foreign;
    CompilationPreservesMeaning(t, action, list, d);
    VerdictIs(t, action, list, d);
    ListedFirst(list, d.nr);
    NeverAllows(action, 1);
    if FirstDeny(list, d.nr).Some? { NeverAllows(action, FirstDeny(list, d.nr).value); }
    KillsNot();
  }

  lemma KillsNot()
    ensures (0x8000_0000 as Word) != 0x7fff_0000
  {
  }

  /** Anything foreign kills the process. Anything else that is not allowed kills it or fails with an error number, as the
      action says: the one its first entry in the denylist names, or EPERM. */
  lemma DeniedWith(t: Target, action: Action, list: seq<Deny>, d: Data, i: nat)
    requires IsData(d)
    ensures var r := Exec(Program(t, action, list), 0, 0, d, t.little);
            && (Foreign(t, d) ==> r == Return(0x8000_0000))
            && (!Foreign(t, d) && i < |list| && list[i].nr == d.nr && (forall j :: 0 <= j < i ==> list[j].nr != d.nr)
                ==> r == Return(DenialWord(action, list[i].err)))
            && (!Foreign(t, d) && !Listed(list, d.nr) && Checked(t, d) ==> r == Return(DenialWord(action, 1)))
  {
    hide Program, Exec, Verdict, DenialWord, FirstDeny, Checked, Listed, Foreign;
    CompilationPreservesMeaning(t, action, list, d);
    VerdictIs(t, action, list, d);
    ListedFirst(list, d.nr);
    if i < |list| && list[i].nr == d.nr && forall j :: 0 <= j < i ==> list[j].nr != d.nr { FirstOf(list, i); }
  }

  /** The two words of an argument make it up, the low one first on a little-endian machine. */
  lemma WordsOfArgument(d: Data, n: nat)
    requires IsData(d) && n < 6
    ensures Load(d, 0, true) == Load(d, 0, false) == Some(d.nr) && Load(d, 4, true) == Load(d, 4, false) == Some(d.arch)
    ensures var low, high := Load(d, 16 + 8 * n, true), Load(d, 16 + 8 * n + 4, true);
            && low.Some? && high.Some? && ((high.value as bv64) << 32) | (low.value as bv64) == d.args[n]
            && Load(d, 16 + 8 * n, false) == high && Load(d, 16 + 8 * n + 4, false) == low
  {
    hide Low, High;
    assert (8 * n) / 8 == n && (8 * n + 4) / 8 == n;
    Halves(d.args[n]);
  }

  lemma Halves(x: bv64)
    ensures ((High(x) as bv64) << 32) | (Low(x) as bv64) == x
  {
  }
}
