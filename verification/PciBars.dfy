/** Sizing the base address registers of a PCI function: each register is overwritten with ones,
    read back and restored, and the answer decoded. */
module PciBars {
  import opened Words

  const BARS: nat := 6
  const ONES: uint32 := 0xFFFF_FFFF
  const LONG_LIMIT: nat := 0x1_0000_0000_0000_0000

  /** What the driver records about a register. */
  datatype Bar = Bar(isIo: bool, size: byte, addr: uint32)

  /** A register in which the address bits from `unit` up can be written and the ones below are
      wired (section 6.2.5.1 of the PCI Local Bus Specification, revision 3.0). */
  datatype Reg = Reg(held: uint32, unit: nat) {
    ghost predicate Valid() {
      unit > 0 && WORD_LIMIT % unit == 0
    }

    function Write(w: uint32): (r: Reg)
      requires Valid()
      ensures r.Valid() && r.unit == unit
    {
      WriteFits(w, held, unit);
      Reg(w / unit * unit + held % unit, unit)
    }

    /** What it answers after all ones have been written. */
    function Answer(): uint32
      requires Valid()
    {
      Write(ONES).held
    }
  }

  lemma TimesUnit(d: int, unit: nat)
    requires unit > 0
    ensures (d >= 1 ==> d * unit >= unit) && (d <= -1 ==> d * unit <= -(unit as int))
  {
  }

  lemma DivModOf(q: nat, unit: nat, r: nat)
    requires r < unit
    ensures (q * unit + r) / unit == q && (q * unit + r) % unit == r
  {
    var x := q * unit + r;
    var d := x / unit - q;
    assert d * unit == r - x % unit;
    TimesUnit(d, unit);
  }

  lemma WriteFits(w: uint32, v: uint32, unit: nat)
    requires unit > 0 && WORD_LIMIT % unit == 0
    ensures 0 <= w / unit * unit + v % unit < WORD_LIMIT
  {
    DivMod(w, unit);
    DivMod(WORD_LIMIT, unit);
    NextMultiple(w / unit, WORD_LIMIT / unit, unit, w % unit);
  }

  lemma DivMod(x: nat, unit: nat)
    requires unit > 0
    ensures x == x / unit * unit + x % unit && 0 <= x % unit < unit
  {
  }

  /** What is below a multiple has its own multiple, and a whole unit, below it. */
  lemma NextMultiple(q: nat, k: nat, unit: nat, r: nat)
    requires q * unit + r < k * unit
    ensures q * unit + unit <= k * unit
  {
    if q >= k {
      TimesGrows(k, q, unit);
    } else {
      TimesGrows(q + 1, k, unit);
    }
  }

  lemma TimesGrows(a: nat, b: nat, unit: nat)
    requires a <= b
    ensures a * unit <= b * unit
  {
    assert b * unit == a * unit + (b - a) * unit;
  }

  /** Writing back what was read before restores the register. */
  lemma WriteBack(r: Reg, w: uint32)
    requires r.Valid()
    ensures r.Write(w).Write(r.held) == r
  {
    DivModOf(w / r.unit, r.unit, r.held % r.unit);
  }

  /** The answer is all ones down to the unit. */
  lemma AnswerIs(r: Reg)
    requires r.Valid()
    ensures r.Answer() == WORD_LIMIT - r.unit + r.held % r.unit
  {
    var k := WORD_LIMIT / r.unit;
    assert ONES == (k - 1) * r.unit + (r.unit - 1);
    DivModOf(k - 1, r.unit, r.unit - 1);
  }

  /** x with its low bits below `unit` cleared, subtracted from 2 to the power of the width: the
      complement plus one of a masked answer. */
  function Complement(x: nat, unit: nat, limit: nat): (size: nat)
    requires unit > 0 && x < limit
    ensures size < limit
  {
    (limit - 1 - (x - x % unit) + 1) % limit
  }

  function IsIo(answer: uint32): bool {
    answer % 2 == 1
  }

  function IsLong(answer: uint32): bool {
    answer / 2 % 4 == 2
  }

  /** The size as it is computed, by the kind of register. */
  function IoSize(answer: uint32): uint32 {
    Complement(answer, 4, WORD_LIMIT)
  }

  function MemorySize(answer: uint32): uint32 {
    Complement(answer, 16, WORD_LIMIT)
  }

  function LongSize(answer: uint32, answerHigh: uint32): nat {
    Complement(answerHigh * WORD_LIMIT + answer, 16, LONG_LIMIT)
  }

  /** What is recorded: the field for the size is a byte, the one for the address a word. */
  function IoBar(v: uint32, answer: uint32): Bar {
    Bar(true, IoSize(answer) % 256, v - v % 4)
  }

  function MemoryBar(v: uint32, answer: uint32): Bar {
    Bar(false, MemorySize(answer) % 256, v - v % 16)
  }

  function LongBar(v: uint32, answer: uint32, high: uint32, answerHigh: uint32): Bar {
    var full := high * WORD_LIMIT + v;
    Bar(false, LongSize(answer, answerHigh) % WORD_LIMIT % 256, (full - full % 16) % WORD_LIMIT)
  }

  const UPPER: Bar := Bar(false, 0, 0)

  ghost predicate ValidRegs(regs: seq<Reg>) {
    forall r :: r in regs ==> r.Valid()
  }

  /** A register that starts a 64-bit pair, if it is not itself the upper half of one. */
  ghost predicate StartsPair(regs: seq<Reg>, i: nat)
    requires ValidRegs(regs)
  {
    i + 1 < |regs| && regs[i].held != 0 && !IsIo(regs[i].Answer()) && IsLong(regs[i].Answer())
  }

  /** Pairs are matched from the first register on; an upper half starts none. */
  ghost predicate IsUpper(regs: seq<Reg>, i: nat)
    requires ValidRegs(regs)
  {
    i > 0 && StartsPair(regs, i - 1) && !IsUpper(regs, i - 1)
  }

  /** The record of a register that is no upper half. */
  ghost function Own(regs: seq<Reg>, i: nat, was: Bar): Bar
    requires ValidRegs(regs) && i < |regs|
  {
    var v, answer := regs[i].held, regs[i].Answer();
    if v == 0 then Bar(false, 0, was.addr)
    else if IsIo(answer) then IoBar(v, answer)
    else if StartsPair(regs, i) then LongBar(v, answer, regs[i + 1].held, regs[i + 1].Answer())
    else MemoryBar(v, answer)
  }

  /** The size computed for a register that is no upper half, before it is narrowed. */
  ghost function Measured(regs: seq<Reg>, i: nat): nat
    requires ValidRegs(regs) && i < |regs|
  {
    var v, answer := regs[i].held, regs[i].Answer();
    if v == 0 then 0
    else if IsIo(answer) then IoSize(answer)
    else if StartsPair(regs, i) then LongSize(answer, regs[i + 1].Answer())
    else MemorySize(answer)
  }

  ghost function Recorded(regs: seq<Reg>, i: nat, was: Bar): Bar
    requires ValidRegs(regs) && i < |regs|
  {
    if IsUpper(regs, i) then UPPER else Own(regs, i, was)
  }

  /** The configuration space of one function, as far as its base address registers go. */
  class ConfigSpace {
    var regs: seq<Reg>

    ghost predicate Valid()
      reads this
    {
      |regs| == BARS && ValidRegs(regs)
    }

    constructor (regs: seq<Reg>)
      requires |regs| == BARS && ValidRegs(regs)
      ensures Valid() && this.regs == regs
    {
      this.regs := regs;
    }

    method Write(i: nat, w: uint32)
      requires Valid() && i < BARS
      modifies this
      ensures Valid() && regs == old(regs)[i := old(regs)[i].Write(w)]
    {
      regs := regs[i := regs[i].Write(w)];
    }

    /** Write ones, read, restore. */
    method Probe(i: nat, orig: uint32) returns (answer: uint32)
      requires Valid() && i < BARS && orig == regs[i].held
      modifies this
      ensures Valid() && regs == old(regs) && answer == regs[i].Answer()
    {
      WriteBack(regs[i], ONES);
      Write(i, ONES);
      answer := regs[i].held;
      Write(i, orig);
    }

    /** The body of the loop: record register i, and with it the upper half of a pair. */
    method ProbeBar(i: nat, out: array<Bar>) returns (next: nat)
      requires Valid() && out.Length == BARS && i < BARS
      modifies this, out
      ensures Valid() && regs == old(regs)
      ensures next == if StartsPair(regs, i) then i + 2 else i + 1
      ensures out[i] == Own(regs, i, old(out[i])) && (next == i + 2 ==> out[i + 1] == UPPER)
      ensures forall k :: 0 <= k < i || next <= k < BARS ==> out[k] == old(out[k])
    {
      var orig := regs[i].held;
      next := i + 1;
      if orig == 0 {
        out[i] := out[i].(size := 0, isIo := false);
        return;
      }
      WriteBack(regs[i], ONES);
      var answer := Probe(i, orig);
      AnswerIs(regs[i]);
      if answer == 0 {
        assert false; // a register that holds something cannot answer 0
      } else if IsIo(answer) {
        out[i] := IoBar(orig, answer);
      } else if IsLong(answer) && i + 1 < BARS {
        var origHigh := regs[i + 1].held;
        var answerHigh := Probe(i + 1, origHigh);
        out[i] := LongBar(orig, answer, origHigh, answerHigh);
        out[i + 1] := UPPER;
        next := i + 2;
      } else {
        out[i] := MemoryBar(orig, answer);
      }
    }

    /** The loop over the six registers. */
    method ProbeBars(out: array<Bar>)
      requires Valid() && out.Length == BARS
      modifies this, out
      ensures Valid() && regs == old(regs)
      ensures forall k :: 0 <= k < BARS ==> out[k] == Recorded(regs, k, old(out[k]))
    {
      var i := 0;
      while i < BARS
        invariant 0 <= i <= BARS && Valid() && regs == old(regs) && (i < BARS ==> !IsUpper(regs, i))
        invariant forall k :: 0 <= k < i ==> out[k] == Recorded(regs, k, old(out[k]))
        invariant forall k :: i <= k < BARS ==> out[k] == old(out[k])
        decreases BARS - i
      {
        i := ProbeBar(i, out);
      }
    }
  }

  /** What a device asks for in a register, or in a pair of them. A 64-bit region of up to 4 GB
      has its size in the lower register, a larger one in the upper. */
  datatype Region =
    | Unused
    | Io(base: uint32, size: nat)
    | Memory(base: uint32, size: nat, prefetch: bool)
    | LongMemory(low: uint32, lowUnit: nat, high: uint32, highUnit: nat, prefetch: bool)
  {
    /** Sizes are divisors of the address space, big enough to leave the type bits alone, and
        bases are aligned to them. */
    ghost predicate Valid() {
      match this
      case Unused => true
      case Io(base, size) => size > 0 && size % 4 == 0 && WORD_LIMIT % size == 0 && base % size == 0
      case Memory(base, size, _) => size > 0 && size % 16 == 0 && WORD_LIMIT % size == 0 && base % size == 0
      case LongMemory(low, lowUnit, high, highUnit, _) =>
        lowUnit > 0 && lowUnit % 16 == 0 && WORD_LIMIT % lowUnit == 0 && low % lowUnit == 0 &&
        highUnit > 0 && WORD_LIMIT % highUnit == 0 && high % highUnit == 0 &&
        (highUnit == 1 || lowUnit == WORD_LIMIT)
    }

    /** The type bits, which are wired. */
    ghost function Flag(): nat {
      match this
      case Unused => 0
      case Io(_, _) => 1
      case Memory(_, _, prefetch) => if prefetch then 8 else 0
      case LongMemory(_, _, _, _, prefetch) => if prefetch then 12 else 4
    }

    /** The registers: wired type bits, and as many address bits as the size leaves. */
    ghost function Regs(): (regs: seq<Reg>)
      requires Valid()
      ensures |regs| == if LongMemory? then 2 else 1
    {
      match this
      case Unused => [Reg(0, WORD_LIMIT)]
      case Io(base, size) => [Flagged(base, size, 1)]
      case Memory(base, size, _) => [Flagged(base, size, Flag())]
      case LongMemory(low, lowUnit, high, highUnit, _) => [Flagged(low, lowUnit, Flag()), Reg(high, highUnit)]
    }

    ghost function Size(): nat {
      match this
      case Unused => 0
      case Io(_, size) => size
      case Memory(_, size, _) => size
      case LongMemory(_, lowUnit, _, highUnit, _) => lowUnit * highUnit
    }

    ghost function Base(): nat {
      match this
      case Unused => 0
      case Io(base, _) => base
      case Memory(base, _, _) => base
      case LongMemory(low, _, high, _, _) => high * WORD_LIMIT + low
    }

    /** The first register reads 0. */
    ghost predicate ReadsZero() {
      Unused? || (Memory? && base == 0 && !prefetch)
    }

    /** The size as it is computed: in 32 bits, or for a pair in 64. */
    ghost function ComputedSize(): nat {
      if ReadsZero() then 0 else Size() % (if LongMemory? then LONG_LIMIT else WORD_LIMIT)
    }

    /** What ends up in the record of the first register: of the size the low eight bits, of the
        base the low 32; a register that reads 0 counts as unused. */
    ghost function Record(was: Bar): Bar {
      if ReadsZero() then Bar(false, 0, was.addr) else Bar(Io?, Size() % 256, Base() % WORD_LIMIT)
    }
  }

  /** A register that holds an address and type bits. */
  ghost function Flagged(base: uint32, size: nat, flag: nat): Reg
    requires size > 0 && WORD_LIMIT % size == 0 && base % size == 0 && flag < size
  {
    RegFits(base, size, flag);
    Reg(base + flag, size)
  }

  lemma RegFits(base: uint32, size: nat, flag: nat)
    requires size > 0 && WORD_LIMIT % size == 0 && base % size == 0 && flag < size
    ensures base + flag < WORD_LIMIT && (base + flag) % size == flag
  {
    DivModOf(base / size, size, flag);
    DivModOf(0, size, flag);
    WriteFits(base, flag, size);
    assert base == base / size * size;
  }

  /** The registers of several regions, one behind the other. */
  ghost function RegsOf(rs: seq<Region>): (regs: seq<Reg>)
    requires forall r :: r in rs ==> r.Valid()
  {
    if rs == [] then [] else RegsOf(rs[..|rs| - 1]) + rs[|rs| - 1].Regs()
  }

  lemma Regroup(x: nat, q: nat, limit: nat, m: nat, unit: nat, u: nat, v: nat)
    requires limit == m * unit && x == q * limit + (u * unit + v) && v < unit
    ensures x % unit == v
  {
    assert q * limit == q * (m * unit) == (q * m) * unit;
    assert (q * m) * unit + u * unit == (q * m + u) * unit;
    DivModOf(q * m + u, unit, v);
  }

  lemma ModOfMod(x: nat, limit: nat, unit: nat)
    requires limit > 0 && unit > 0 && limit % unit == 0
    ensures x % limit % unit == x % unit
  {
    var r := x % limit;
    DivMod(x, limit);
    DivMod(limit, unit);
    DivMod(r, unit);
    Regroup(x, x / limit, limit, limit / unit, unit, r / unit, r % unit);
  }

  lemma ComplementOf(size: nat, flag: nat, unit: nat, limit: nat)
    requires unit > 0 && 0 < size <= limit && limit % unit == 0 && size % unit == 0 && flag < unit <= size
    ensures limit - size + flag < limit && Complement(limit - size + flag, unit, limit) == size % limit
  {
    var a, b := limit / unit, size / unit;
    assert limit - size == (a - b) * unit;
    DivModOf(a - b, unit, flag);
  }

  lemma DividesIsLess(size: nat)
    requires size > 0 && WORD_LIMIT % size == 0
    ensures size <= WORD_LIMIT
  {
  }

  lemma IoDecodes(base: uint32, size: nat, answer: uint32)
    requires base % 4 == 0 && size % 4 == 0 && answer == WORD_LIMIT - size + 1 && base + 1 < WORD_LIMIT
    requires Complement(answer, 4, WORD_LIMIT) % 256 == size % 256
    ensures IsIo(answer) && IoBar(base + 1, answer) == Bar(true, size % 256, base)
  {
  }

  lemma IoAnswer(base: uint32, size: nat)
    requires Io(base, size).Valid()
    ensures base + 1 < WORD_LIMIT && Reg(base + 1, size).Valid()
    ensures var answer := Reg(base + 1, size).Answer();
            && IsIo(answer) && IoBar(base + 1, answer) == Bar(true, size % 256, base)
            && IoSize(answer) == size % WORD_LIMIT
  {
    RegFits(base, size, 1);
    DividesIsLess(size);
    AnswerIs(Reg(base + 1, size));
    ComplementOf(size, 1, 4, WORD_LIMIT);
    ModOfMod(size, WORD_LIMIT, 256);
    ModOfMod(base, size, 4);
    IoDecodes(base, size, Reg(base + 1, size).Answer());
  }

  lemma MemoryDecodes(base: uint32, size: nat, flag: nat, answer: uint32)
    requires base % 16 == 0 && size % 16 == 0 && (flag == 0 || flag == 8)
    requires answer == WORD_LIMIT - size + flag && base + flag < WORD_LIMIT
    requires Complement(answer, 16, WORD_LIMIT) % 256 == size % 256
    ensures !IsIo(answer) && !IsLong(answer) && MemoryBar(base + flag, answer) == Bar(false, size % 256, base)
  {
  }

  lemma MemoryAnswer(base: uint32, size: nat, flag: nat)
    requires Memory(base, size, true).Valid() && (flag == 0 || flag == 8)
    ensures base + flag < WORD_LIMIT && Reg(base + flag, size).Valid()
    ensures var answer := Reg(base + flag, size).Answer();
            !IsIo(answer) && !IsLong(answer) && MemoryBar(base + flag, answer) == Bar(false, size % 256, base) &&
            MemorySize(answer) == size % WORD_LIMIT
  {
    RegFits(base, size, flag);
    DividesIsLess(size);
    AnswerIs(Reg(base + flag, size));
    ComplementOf(size, flag, 16, WORD_LIMIT);
    ModOfMod(size, WORD_LIMIT, 256);
    ModOfMod(base, size, 16);
    MemoryDecodes(base, size, flag, Reg(base + flag, size).Answer());
  }

  lemma LongKind(size: nat, flag: nat, answer: uint32, above: uint32)
    requires size % 16 == 0 && (flag == 4 || flag == 12)
    requires above * WORD_LIMIT + answer == LONG_LIMIT - size + flag
    ensures !IsIo(answer) && IsLong(answer)
  {
    var k := (LONG_LIMIT - size) / 16 - above * 0x1000_0000;
    assert answer == 16 * k + flag;
    KindOfFlag(k, flag);
  }

  lemma KindOfFlag(k: nat, flag: nat)
    requires 16 * k + flag < WORD_LIMIT && (flag == 4 || flag == 12)
    ensures !IsIo(16 * k + flag) && IsLong(16 * k + flag)
  {
    var odd := if flag == 12 then 1 else 0;
    DivModOf(8 * k + flag / 2, 2, 0);
    DivModOf(2 * k + odd, 4, 2);
    assert 16 * k + flag == (8 * k + flag / 2) * 2 + 0;
    assert 8 * k + flag / 2 == (2 * k + odd) * 4 + 2;
  }

  lemma LongAddress(low: uint32, high: uint32, flag: nat)
    requires low % 16 == 0 && flag < 16 && low + flag < WORD_LIMIT
    ensures var full := high * WORD_LIMIT + (low + flag); (full - full % 16) % WORD_LIMIT == low
  {
    var full := high * WORD_LIMIT + (low + flag);
    assert full % 16 == flag;
    DivModOf(high, WORD_LIMIT, low);
  }

  lemma LongSizeByte(size: nat, flag: nat, answer: uint32, above: uint32)
    requires size % 16 == 0 && 16 <= size <= LONG_LIMIT && flag < 16
    requires above * WORD_LIMIT + answer == LONG_LIMIT - size + flag
    ensures LongSize(answer, above) == size % LONG_LIMIT && LongSize(answer, above) % WORD_LIMIT % 256 == size % 256
  {
    ComplementOf(size, flag, 16, LONG_LIMIT);
    ModOfMod(size % LONG_LIMIT, WORD_LIMIT, 256);
    ModOfMod(size, LONG_LIMIT, 256);
  }

  lemma LongDecodes(low: uint32, high: uint32, size: nat, flag: nat, answer: uint32, above: uint32)
    requires low % 16 == 0 && size % 16 == 0 && 16 <= size <= LONG_LIMIT && (flag == 4 || flag == 12)
    requires low + flag < WORD_LIMIT && above * WORD_LIMIT + answer == LONG_LIMIT - size + flag
    ensures !IsIo(answer) && IsLong(answer)
    ensures LongBar(low + flag, answer, high, above) == Bar(false, size % 256, low)
    ensures LongSize(answer, above) == size % LONG_LIMIT
  {
    hide IsIo, IsLong, LongSize;
    LongKind(size, flag, answer, above);
    LongAddress(low, high, flag);
    LongSizeByte(size, flag, answer, above);
  }

  lemma LongAnswer(low: uint32, lowUnit: nat, high: uint32, highUnit: nat, flag: nat)
    requires LongMemory(low, lowUnit, high, highUnit, true).Valid() && (flag == 4 || flag == 12)
    ensures low + flag < WORD_LIMIT && Reg(low + flag, lowUnit).Valid() && Reg(high, highUnit).Valid()
    ensures var answer := Reg(low + flag, lowUnit).Answer();
            var above, size := Reg(high, highUnit).Answer(), lowUnit * highUnit;
            && !IsIo(answer) && IsLong(answer)
            && LongBar(low + flag, answer, high, above) == Bar(false, size % 256, low)
            && LongSize(answer, above) == size % LONG_LIMIT
  {
    hide IsIo, IsLong, LongBar, LongSize, Reg.Answer;
    RegFits(low, lowUnit, flag);
    AnswerIs(Reg(low + flag, lowUnit));
    AnswerIs(Reg(high, highUnit));
    var answer, above := Reg(low + flag, lowUnit).Answer(), Reg(high, highUnit).Answer();
    var size := BothAnswers(lowUnit, highUnit, flag, answer, above);
    ModOfMod(low, lowUnit, 16);
    LongDecodes(low, high, size, flag, answer, above);
  }

  /** The two answers together are those of one 64-bit register. */
  lemma BothAnswers(lowUnit: nat, highUnit: nat, flag: nat, answer: uint32, above: uint32) returns (size: nat)
    requires 0 < lowUnit && lowUnit % 16 == 0 && WORD_LIMIT % lowUnit == 0
    requires 0 < highUnit && WORD_LIMIT % highUnit == 0 && (highUnit == 1 || lowUnit == WORD_LIMIT)
    requires answer == WORD_LIMIT - lowUnit + flag && above == WORD_LIMIT - highUnit
    ensures size == lowUnit * highUnit && 16 <= size <= LONG_LIMIT && size % 16 == 0
    ensures above * WORD_LIMIT + answer == LONG_LIMIT - size + flag
  {
    DividesIsLess(lowUnit);
    DividesIsLess(highUnit);
    size := if highUnit == 1 then lowUnit else WORD_LIMIT * highUnit;
  }

  /** The registers of region r start at position i. */
  ghost predicate RegionAt(regs: seq<Reg>, i: nat, r: Region) {
    r.Valid() && ValidRegs(regs) && i + |r.Regs()| <= |regs| && regs[i..i + |r.Regs()|] == r.Regs()
  }

  /** What the driver makes of a region that stands on its own. */
  ghost predicate WellRecorded(regs: seq<Reg>, i: nat, r: Region, was: Bar)
    requires ValidRegs(regs) && i < |regs|
  {
    && Own(regs, i, was) == r.Record(was) && Measured(regs, i) == r.ComputedSize()
    && (StartsPair(regs, i) <==> r.LongMemory?)
  }

  lemma IoRecorded(regs: seq<Reg>, i: nat, r: Region, was: Bar)
    requires RegionAt(regs, i, r) && r.Io?
    ensures WellRecorded(regs, i, r, was)
  {
    hide IoBar, MemoryBar, LongBar, IoSize, MemorySize, LongSize, IsIo, IsLong, Reg.Answer;
    assert regs[i] == r.Regs()[0];
    IoAnswer(r.base, r.size);
  }

  lemma MemoryRecorded(regs: seq<Reg>, i: nat, r: Region, was: Bar)
    requires RegionAt(regs, i, r) && r.Memory?
    ensures WellRecorded(regs, i, r, was)
  {
    hide IoBar, MemoryBar, LongBar, IoSize, MemorySize, LongSize, IsIo, IsLong, Reg.Answer;
    assert regs[i] == r.Regs()[0];
    MemoryAnswer(r.base, r.size, r.Flag());
  }

  lemma LongRecorded(regs: seq<Reg>, i: nat, r: Region, was: Bar)
    requires RegionAt(regs, i, r) && r.LongMemory?
    ensures WellRecorded(regs, i, r, was)
  {
    hide IoBar, MemoryBar, LongBar, IoSize, MemorySize, LongSize, IsIo, IsLong, Reg.Answer;
    assert regs[i] == r.Regs()[0] && regs[i + 1] == r.Regs()[1];
    LongAnswer(r.low, r.lowUnit, r.high, r.highUnit, r.Flag());
    DivModOf(r.high, WORD_LIMIT, r.low);
  }

  /** A region is measured and recorded as it should be, and starts a pair exactly when it is one. */
  lemma RegionIsRecorded(regs: seq<Reg>, i: nat, r: Region, was: Bar)
    requires RegionAt(regs, i, r)
    ensures WellRecorded(regs, i, r, was)
  {
    match r
    case Unused => assert regs[i] == r.Regs()[0];
    case Io(_, _) => IoRecorded(regs, i, r, was);
    case Memory(_, _, _) => MemoryRecorded(regs, i, r, was);
    case LongMemory(_, _, _, _, _) => LongRecorded(regs, i, r, was);
  }

  /** Whatever regions come first, the next one is not taken for the upper half of a pair. */
  lemma {:induction false} NextIsNoUpper(rs: seq<Region>, tail: seq<Reg>)
    requires (forall r :: r in rs ==> r.Valid()) && ValidRegs(RegsOf(rs) + tail)
    ensures !IsUpper(RegsOf(rs) + tail, |RegsOf(rs)|)
  {
    if rs != [] {
      var n := |rs| - 1;
      var pre, r := rs[..n], rs[n];
      assert RegsOf(rs) + tail == RegsOf(pre) + (r.Regs() + tail);
      NextIsNoUpper(pre, r.Regs() + tail);
      RegionIsRecorded(RegsOf(rs) + tail, |RegsOf(pre)|, r, UPPER);
    }
  }

  /** For any device: for every region the full size is computed; the record keeps the low eight
      bits of it and the low 32 bits of the base, and both halves of a 64-bit region count as one. */
  lemma RegionsAreRecorded(rs: seq<Region>, r: Region, tail: seq<Reg>, was: Bar)
    requires (forall x :: x in rs ==> x.Valid()) && r.Valid()
    requires ValidRegs(RegsOf(rs) + (r.Regs() + tail))
    ensures var regs, i := RegsOf(rs) + (r.Regs() + tail), |RegsOf(rs)|;
            && Recorded(regs, i, was) == r.Record(was) && Measured(regs, i) == r.ComputedSize()
            && (r.LongMemory? ==> Recorded(regs, i + 1, was) == Bar(false, 0, 0))
  {
    hide StartsPair, Own, Measured;
    NextIsNoUpper(rs, r.Regs() + tail);
    RegionIsRecorded(RegsOf(rs) + (r.Regs() + tail), |RegsOf(rs)|, r, was);
  }

  // ----- when the record is right

  function Pow2(k: nat): nat {
    if k == 0 then 1 else 2 * Pow2(k - 1)
  }

  /** A divisor of a power of two is one. */
  lemma {:induction false} DivisorIsPower(d: nat, m: nat, k: nat) returns (a: nat)
    requires d * m == Pow2(k)
    ensures d == Pow2(a)
    decreases k
  {
    if k == 0 {
      assert d == 1 && m == 1;
      a := 0;
    } else if d % 2 == 0 {
      assert d / 2 * m == Pow2(k - 1);
      a := DivisorIsPower(d / 2, m, k - 1);
      a := a + 1;
    } else {
      OddTimes(d, m);
      assert d * (m / 2) == Pow2(k - 1);
      a := DivisorIsPower(d, m / 2, k - 1);
    }
  }

  lemma OddProduct(a: nat, b: nat)
    ensures (2 * a + 1) * (2 * b + 1) % 2 == 1
  {
    assert (2 * a + 1) * (2 * b + 1) == 2 * (2 * a * b + a + b) + 1;
  }

  lemma OddTimes(d: nat, m: nat)
    requires d % 2 == 1 && d * m % 2 == 0
    ensures m % 2 == 0
  {
    OddProduct(d / 2, m / 2);
    assert d == 2 * (d / 2) + 1;
  }

  lemma {:induction false} PowersOf256(a: nat)
    ensures if a < 8 then Pow2(a) <= 128 else Pow2(a) % 256 == 0
  {
    if a < 8 {
      PowersBelow256(a);
    } else if a == 8 {
      assert Pow2(8) == 256;
    } else {
      PowersOf256(a - 1);
    }
  }

  lemma PowersBelow256(a: nat)
    requires a < 8
    ensures Pow2(a) <= 128
  {
    if a == 0 {} else if a == 1 {} else if a == 2 {} else if a == 3 {}
    else if a == 4 {} else if a == 5 {} else if a == 6 {} else { assert Pow2(7) == 128; }
  }

  lemma WordLimitIsPower()
    ensures Pow2(32) == WORD_LIMIT
  {
    assert Pow2(4) == 0x10 && Pow2(8) == 0x100 && Pow2(12) == 0x1000 && Pow2(16) == 0x1_0000;
    assert Pow2(20) == 0x10_0000 && Pow2(24) == 0x100_0000 && Pow2(28) == 0x1000_0000;
  }

  lemma SmallOrWholeMultiple(size: nat)
    requires size > 0 && WORD_LIMIT % size == 0
    ensures size < 256 || size % 256 == 0
  {
    WordLimitIsPower();
    DivMod(WORD_LIMIT, size);
    var a := DivisorIsPower(size, WORD_LIMIT / size, 32);
    PowersOf256(a);
  }

  lemma SizeIsSmallOrWhole(r: Region)
    requires r.Valid() && !r.Unused?
    ensures r.Size() > 0 && (r.Size() < 256 || r.Size() % 256 == 0)
  {
    match r
    case Io(_, size) => SmallOrWholeMultiple(size);
    case Memory(_, size, _) => SmallOrWholeMultiple(size);
    case LongMemory(_, lowUnit, _, highUnit, _) =>
      SmallOrWholeMultiple(lowUnit);
      PairSize(lowUnit, highUnit);
  }

  lemma LowBase(r: Region)
    requires !r.Unused?
    ensures r.Base() % WORD_LIMIT == r.Base() <==> r.LongMemory? ==> r.high == 0
  {
    if r.LongMemory? {
      DivModOf(r.high, WORD_LIMIT, r.low);
    }
  }

  /** The record of a region in use has its size exactly when that is below 256 and the register
      does not read 0, and otherwise size 0; it has its base exactly when that is below 4 GB. */
  lemma RecordIsRight(r: Region, was: Bar)
    requires r.Valid() && !r.Unused?
    ensures r.Record(was).size == r.Size() <==> r.Size() < 256 && !r.ReadsZero()
    ensures r.Record(was).size == r.Size() || r.Record(was).size == 0
    ensures !r.ReadsZero() ==> (r.Record(was).addr == r.Base() <==> r.LongMemory? ==> r.high == 0)
  {
    hide Region.Valid, Region.Size, Region.Base, Region.ReadsZero;
    SizeIsSmallOrWhole(r);
    LowBase(r);
    assert r.Size() < 256 ==> r.Size() % 256 == r.Size();
  }

  lemma PairSize(lowUnit: nat, highUnit: nat)
    requires lowUnit > 0 && highUnit > 0 && (highUnit == 1 || lowUnit == WORD_LIMIT)
    requires lowUnit < 256 || lowUnit % 256 == 0
    ensures lowUnit * highUnit > 0 && (lowUnit * highUnit < 256 || lowUnit * highUnit % 256 == 0)
  {
  }

  /** A register that announces a 64-bit region but is the last one is treated as a 32-bit one. */
  lemma LastHalfIsShort(regs: seq<Reg>, i: nat, low: uint32, unit: nat, flag: nat, was: Bar)
    requires ValidRegs(regs) && i + 1 == |regs| && (flag == 4 || flag == 12) && low + flag < WORD_LIMIT
    requires Memory(low, unit, true).Valid() && regs[i] == Reg(low + flag, unit)
    ensures Own(regs, i, was) == Bar(false, unit % 256, low) && Measured(regs, i) == unit % WORD_LIMIT
  {
    hide IoSize, LongBar, LongSize;
    RegFits(low, unit, flag);
    DividesIsLess(unit);
    AnswerIs(Reg(low + flag, unit));
    ComplementOf(unit, flag, 16, WORD_LIMIT);
    ModOfMod(unit, WORD_LIMIT, 256);
    ModOfMod(low, unit, 16);
    EvenFlag(low, unit, flag, Reg(low + flag, unit).Answer());
  }

  lemma EvenFlag(base: uint32, size: nat, flag: nat, answer: uint32)
    requires base % 16 == 0 && size % 16 == 0 && (flag == 4 || flag == 12)
    requires answer == WORD_LIMIT - size + flag && base + flag < WORD_LIMIT
    ensures !IsIo(answer) && (base + flag) - (base + flag) % 16 == base
  {
  }
}
