/** The processor state a context switch works on, and the switch itself, one instruction
    after the other. Memory is an array of 32-bit words; addresses count words. */
module ContextSwitch {

  datatype Regs = Regs(eax: int, edx: int, ebx: int, esi: int, edi: int, ebp: int, esp: int, eip: int)

  datatype Machine = Machine(mem: seq<int>, r: Regs) {
    /** `n` words can be pushed and `k` words above the stack pointer read. */
    predicate StackRoom(n: nat, k: nat) {
      n <= r.esp && r.esp + k <= |mem|
    }

    function Push(v: int): Machine
      requires StackRoom(1, 0)
    {
      Machine(mem[r.esp - 1 := v], r.(esp := r.esp - 1))
    }
  }

  /** The words of a saved context, from its address on: edi, esi, ebx, ebp, return address. */
  const CONTEXT_WORDS: nat := 5

  /** swtch can run: its two arguments are a cell and a saved context in memory. */
  predicate CanSwitch(m: Machine) {
    && m.StackRoom(4, 3)
    && 0 <= m.mem[m.r.esp + 1] < |m.mem|
    && 0 <= m.mem[m.r.esp + 2] && m.mem[m.r.esp + 2] + CONTEXT_WORDS <= |m.mem|
  }

  /** Memory after the caller's registers are pushed and their address is stored in the cell. */
  function SavedMem(m: Machine): (mem: seq<int>)
    requires CanSwitch(m)
    ensures |mem| == |m.mem|
  {
    var s := m.r.esp;
    m.mem[s - 1 := m.r.ebp][s - 2 := m.r.ebx][s - 3 := m.r.esi][s - 4 := m.r.edi][m.mem[s + 1] := s - 4]
  }

  /** The machine running from the context at `c`, with `a` left in eax. */
  function FromContext(mem: seq<int>, a: int, c: int): Machine
    requires 0 <= c && c + CONTEXT_WORDS <= |mem|
  {
    Machine(mem, Regs(a, c, mem[c + 2], mem[c + 1], mem[c], mem[c + 3], c + CONTEXT_WORDS, mem[c + 4]))
  }

  /** The machine as swtch leaves it. */
  function Switched(m: Machine): Machine
    requires CanSwitch(m)
  {
    FromContext(SavedMem(m), m.mem[m.r.esp + 1], m.mem[m.r.esp + 2])
  }

  /** The same words in [lo, hi). */
  ghost predicate Agree(a: seq<int>, b: seq<int>, lo: int, hi: int) {
    |a| == |b| && forall x :: lo <= x < hi && 0 <= x < |a| ==> a[x] == b[x]
  }

  /** What a switch saves is the caller's context: its callee-saved registers and, above them,
      the return address and everything else on its stack. */
  lemma SwitchSaves(m: Machine)
    requires CanSwitch(m) && !(m.r.esp - 4 <= m.mem[m.r.esp + 1] <= m.r.esp)
    ensures var (mem, c) := (SavedMem(m), m.r.esp - 4);
            && mem[m.mem[m.r.esp + 1]] == c
            && mem[c] == m.r.edi && mem[c + 1] == m.r.esi && mem[c + 2] == m.r.ebx && mem[c + 3] == m.r.ebp
            && mem[c + 4] == m.mem[m.r.esp]
            && forall x :: 0 <= x < |mem| && !(c <= x < m.r.esp) && x != m.mem[m.r.esp + 1] ==> mem[x] == m.mem[x]
  {
  }

  /** Switching away and back, with the saved frame left alone in between, is as if the call
      to swtch had simply returned. */
  lemma SwitchThereAndBack(m: Machine, back: Machine)
    requires CanSwitch(m) && !(m.r.esp - 4 <= m.mem[m.r.esp + 1] <= m.r.esp)
    requires CanSwitch(back) && back.mem[back.r.esp + 2] == m.r.esp - 4
    requires Agree(SavedMem(m), SavedMem(back), m.r.esp - 4, m.r.esp + 1)
    ensures var r := Switched(back).r;
            && r.ebp == m.r.ebp && r.ebx == m.r.ebx && r.esi == m.r.esi && r.edi == m.r.edi
            && r.esp == m.r.esp + 1 && r.eip == m.mem[m.r.esp]
  {
    SwitchSaves(m);
    var a, b, c := SavedMem(m), SavedMem(back), m.r.esp - 4;
    assert b[c] == a[c] && b[c + 1] == a[c + 1] && b[c + 2] == a[c + 2] && b[c + 3] == a[c + 3] && b[c + 4] == a[c + 4];
  }

  class Cpu {
    const mem: array<int>
    var eax: int
    var edx: int
    var ebx: int
    var esi: int
    var edi: int
    var ebp: int
    var esp: int
    var eip: int

    constructor (mem: array<int>)
      ensures this.mem == mem
    {
      this.mem := mem;
    }

    ghost function State(): Machine
      reads this, mem
    {
      Machine(mem[..], Regs(eax, edx, ebx, esi, edi, ebp, esp, eip))
    }

    method PushWord(v: int)
      requires State().StackRoom(1, 0)
      modifies this`esp, mem
      ensures State() == old(State()).Push(v)
    {
      esp := esp - 1;
      mem[esp] := v;
    }

    method PopWord() returns (v: int)
      requires 0 <= esp < mem.Length
      modifies this`esp
      ensures v == mem[old(esp)] && esp == old(esp) + 1
    {
      v := mem[esp];
      esp := esp + 1;
    }

    /** The first seven instructions of swtch: load the arguments, push the callee-saved
        registers, store the stack pointer in the caller's cell. */
    method Save()
      requires CanSwitch(State())
      modifies this`eax, this`edx, this`esp, mem
      ensures mem[..] == SavedMem(old(State()))
      ensures eax == old(mem[esp + 1]) && edx == old(mem[esp + 2])
    {
      eax := mem[esp + 1];
      edx := mem[esp + 2];
      PushWord(ebp);
      PushWord(ebx);
      PushWord(esi);
      PushWord(edi);
      mem[eax] := esp;
    }

    /** The other six: take over the new stack, pop the registers, return. */
    method Restore()
      requires 0 <= edx && edx + CONTEXT_WORDS <= mem.Length
      modifies this
      ensures mem[..] == old(mem[..]) && eax == old(eax) && edx == old(edx)
      ensures edi == mem[edx] && esi == mem[edx + 1] && ebx == mem[edx + 2] && ebp == mem[edx + 3]
      ensures eip == mem[edx + 4]
      ensures esp == edx + CONTEXT_WORDS
    {
      esp := edx;
      edi := PopWord();
      esi := PopWord();
      ebx := PopWord();
      ebp := PopWord();
      eip := PopWord();
    }

    /** swtch. */
    method Swtch()
      requires CanSwitch(State())
      modifies this, mem
      ensures State() == Switched(old(State()))
    {
      Save();
      Restore();
    }
  }
}
