/**
 * The simulator of lab4/y64sim.c: a machine whose registers and memory are byte arrays updated in place,
 * word by word and little-endian. Every method is tied to the function on values that it computes.
 */
module Y86Sim {
  import opened Prelude
  import opened Bytes
  import opened Words
  import opened Y86Isa

  const BLK_SIZE := 32
  const MEM_SIZE := 8192
  const REG_SIZE := 120
  const REG_BYTES := 128  // REG_SIZE rounded up to whole blocks

  lemma {:induction false} FromBytesSnoc(bs: seq<Byte>, b: Byte)
    ensures FromBytes(bs + [b]) == FromBytes(bs) + b * Pow256(|bs|)
  {
    if bs == [] {
      assert [] + [b] == [b] && FromBytes([b][1..]) == 0;
    } else {
      assert (bs + [b])[1..] == bs[1..] + [b];
      FromBytesSnoc(bs[1..], b);
      assert b * Pow256(|bs|) == 256 * (b * Pow256(|bs| - 1)) by { assert Pow256(|bs|) == 256 * Pow256(|bs| - 1); }
    }
  }

  /** The registers that the bytes of the register file mean. */
  function RegsOf(r: seq<Byte>): Regs
    requires |r| >= REG_SIZE
  {
    seq(15, i requires 0 <= i < 15 => BytesLong(r[8 * i..8 * i + 8]))
  }

  lemma RegsOfSplice(r: seq<Byte>, id: int, v: Long)
    requires |r| >= REG_SIZE && 0 <= id < REG_NONE
    ensures RegsOf(Splice(r, 8 * id, LongBytes(v))) == RegsOf(r)[id := v]
  {
    hide LongBytes, BytesLong;
    var r' := Splice(r, 8 * id, LongBytes(v));
    forall i | 0 <= i < 15 ensures RegsOf(r')[i] == RegsOf(r)[id := v][i] {
      if i == id {
        assert r'[8 * i..8 * i + 8] == LongBytes(v);
        BytesOfLong(v);
      } else {
        assert r'[8 * i..8 * i + 8] == r[8 * i..8 * i + 8];
      }
    }
  }

  method GetLongVal(a: array<Byte>, addr: int) returns (ok: bool, val: Long)
    ensures ok <==> GetLong(a[..], addr).Some?
    ensures ok ==> val == GetLong(a[..], addr).value
  {
    if addr < 0 || addr + 8 > a.Length { return false, 0; }
    var sum: nat := 0;
    for i := 0 to 8
      invariant sum == FromBytes(a[addr..addr + i])
    {
      FromBytesSnoc(a[addr..addr + i], a[addr + i]);
      assert a[addr..addr + i + 1] == a[addr..addr + i] + [a[addr + i]];
      sum := sum + a[addr + i] * Pow256(i);
    }
    assert a[addr..addr + 8] == a[..][addr..addr + 8];
    return true, Wrap(sum);
  }

  method SetLongVal(a: array<Byte>, addr: int, val: Long) returns (ok: bool)
    modifies a
    ensures ok <==> SetLong(old(a[..]), addr, val).Some?
    ensures a[..] == if ok then SetLong(old(a[..]), addr, val).value else old(a[..])
  {
    if addr < 0 || addr + 8 > a.Length { return false; }
    var rest := val;
    ghost var bits: nat := val % TWO64;
    Pow256Of8();
    WrapMod(val);
    ghost var all, m0 := LongBytes(val), a[..];
    assert all[0..] == all;
    for i := 0 to 8
      invariant rest == bits - if val < 0 then Pow256(8 - i) else 0
      invariant all[i..] == ToBytes(bits, 8 - i)
      invariant forall k :: 0 <= k < a.Length ==> a[k] == if addr <= k < addr + i then all[k - addr] else m0[k]
    {
      assert Pow256(8 - i) == 256 * Pow256(7 - i);
      assert all[i] == bits % 256 && all[i + 1..] == all[i..][1..];
      a[addr + i] := rest % 256;
      rest := rest / 256;
      bits := bits / 256;
    }
    assert a[..] == Splice(m0, addr, all);
    return true;
  }

  /** n steps, or fewer if a step stops the machine. */
  function MachineRun(s: State, n: nat): (State, Stat)
    decreases n
  {
    if n == 0 then (s, AOK)
    else
      var (t, e) := NextI(s);
      if e == AOK then MachineRun(t, n - 1) else (t, e)
  }

  class Machine {
    var pc: int
    var cc: Flags
    const r: array<Byte>
    const m: array<Byte>

    ghost predicate Valid() { r.Length == REG_BYTES && r != m }

    function View(): State
      requires Valid()
      reads this, r, m
    {
      State(pc, RegsOf(r[..]), cc, m[..])
    }

    constructor (slen: nat)
      ensures Valid() && fresh(r) && fresh(m) && m.Length == (slen + BLK_SIZE - 1) / BLK_SIZE * BLK_SIZE
      ensures View() == State(0, seq(15, i => 0), DEFAULT_CC, seq(m.Length, i => 0))
    {
      pc := 0;
      cc := DEFAULT_CC;
      r := new Byte[REG_BYTES](i => 0);
      m := new Byte[(slen + BLK_SIZE - 1) / BLK_SIZE * BLK_SIZE](i => 0);
      new;
      assert m[..] == seq(m.Length, i => 0);
      ZeroRegs(r[..]);
    }

    /** The file must be shorter than memory: reading it must reach its end. */
    method LoadBinfile(file: seq<Byte>) returns (ok: bool)
      requires Valid()
      modifies m
      ensures ok <==> |file| < m.Length
      ensures ok ==> m[..] == Splice(old(m[..]), 0, file)
    {
      var n := if |file| < m.Length then |file| else m.Length;
      for i := 0 to n
        invariant forall k :: 0 <= k < m.Length ==> m[k] == if k < i then file[k] else old(m[k])
      {
        m[i] := file[i];
      }
      ok := |file| < m.Length;
      if ok {
        assert m[..] == Splice(old(m[..]), 0, file);
      }
    }

    method GetRegVal(id: int) returns (v: Long)
      requires Valid() && id >= 0
      ensures v == GetReg(RegsOf(r[..]), id)
    {
      if id >= REG_NONE { return 0; }
      var _, val := GetLongVal(r, id * 8);
      return val;
    }

    method SetRegVal(id: int, v: Long)
      requires Valid() && id >= 0
      modifies r
      ensures RegsOf(r[..]) == SetReg(old(RegsOf(r[..])), id, v)
    {
      if id < REG_NONE {
        RegsOfSplice(r[..], id, v);
        var _ := SetLongVal(r, id * 8, v);
      }
    }

    method FetchFields() returns (ok: bool, f: Fields)
      requires Valid()
      ensures ok <==> Fetch(View()).Some?
      ensures ok ==> f == Fetch(View()).value && 0 <= f.ra && 0 <= f.rb && 0 <= f.ifun
    {
      hide RegsOf, BytesLong;
      f := Fields(0, 0, 15, 15, 0, 0);
      var nextPc := pc;
      if nextPc < 0 || nextPc >= m.Length { return false, f; }
      var icode, ifun := High(m[nextPc]), Low(m[nextPc]);
      nextPc := nextPc + 1;
      var ra, rb := 15, 15;
      if HasRegs(icode) {
        if nextPc >= m.Length { return false, f; }
        ra, rb := High(m[nextPc]), Low(m[nextPc]);
        nextPc := nextPc + 1;
      }
      var imm: Long := 0;
      if HasImm(icode) {
        ok, imm := GetLongVal(m, nextPc);
        if !ok { return false, f; }
        nextPc := nextPc + 8;
      }
      return true, Fields(icode, ifun, ra, rb, imm, nextPc);
    }

    /** The stack pointer is moved before the store is tried. */
    method PushVal(v: Long, next: int) returns (e: Stat)
      requires Valid()
      modifies this, r, m
      ensures (View(), e) == PushLong(old(View()), v, next)
    {
      hide RegsOf, GetLong, SetLong;
      var rsp := GetRegVal(REG_RSP);
      var e' := ComputeAlu(1, 8, rsp);
      SetRegVal(REG_RSP, e');
      var ok := SetLongVal(m, e', v);
      if !ok { return ADR; }
      pc := next;
      return AOK;
    }

    /** ret and popq: load from the stack, then move the stack pointer. */
    method PopVal() returns (ok: bool, v: Long)
      requires Valid()
      modifies r
      ensures var s, rsp := old(View()), GetReg(old(View()).regs, REG_RSP);
        if GetLong(s.mem, rsp).Some? then
          ok && v == GetLong(s.mem, rsp).value && View() == s.(regs := SetReg(s.regs, REG_RSP, ComputeAlu(0, 8, rsp)))
        else !ok && View() == s
    {
      hide RegsOf, GetLong, SetLong;
      var rsp := GetRegVal(REG_RSP);
      ok, v := GetLongVal(m, rsp);
      if ok {
        SetRegVal(REG_RSP, ComputeAlu(0, 8, rsp));
      }
    }

    method StepMove(f: Fields) returns (e: Stat)
      requires Valid() && 0 <= f.ra && 0 <= f.rb && 2 <= f.icode <= 5
      modifies this, r, m
      ensures (View(), e) == Execute(old(View()), f)
    {
      hide RegsOf, GetLong, SetLong, ComputeAlu;
      var va := GetRegVal(f.ra);
      var vb := GetRegVal(f.rb);
      match f.icode {
      case 2 =>
        if CondDoit(cc, f.ifun) {
          SetRegVal(f.rb, va);
        }
      case 3 =>
        SetRegVal(f.rb, f.imm);
      case 4 =>
        var ok := SetLongVal(m, ComputeAlu(0, vb, f.imm), va);
        if !ok { return ADR; }
      case _ =>
        var ok, v := GetLongVal(m, ComputeAlu(0, vb, f.imm));
        if !ok { return ADR; }
        SetRegVal(f.ra, v);
      }
      pc := f.next;
      return AOK;
    }

    method ExecuteFields(f: Fields) returns (e: Stat)
      requires Valid() && 0 <= f.ra && 0 <= f.rb && 0 <= f.ifun
      modifies this, r, m
      ensures (View(), e) == Execute(old(View()), f)
    {
      hide RegsOf, GetLong, SetLong, ComputeAlu, PushLong;
      if 2 <= f.icode <= 5 {
        e := StepMove(f);
        return;
      }
      match f.icode {
      case 0 =>
        return HLT;
      case 1 =>
      case 6 =>
        if f.ifun >= A_NONE { return INS; }
        var va := GetRegVal(f.ra);
        var vb := GetRegVal(f.rb);
        var val := ComputeAlu(f.ifun, va, vb);
        cc := ComputeCc(f.ifun, va, vb, val);
        SetRegVal(f.rb, val);
      case 7 =>
        if f.ifun > C_G { return INS; }
        pc := if CondDoit(cc, f.ifun) then f.imm else f.next;
        return AOK;
      case 8 =>
        e := PushVal(Wrap(f.next), f.imm);
        return;
      case 9 =>
        var ok, v := PopVal();
        if !ok { return ADR; }
        pc := v;
        return AOK;
      case 10 =>
        var va := GetRegVal(f.ra);
        e := PushVal(va, f.next);
        return;
      case 11 =>
        var ok, v := PopVal();
        if !ok { return ADR; }
        SetRegVal(f.ra, v);
      case _ =>
        return INS;
      }
      pc := f.next;
      return AOK;
    }

    method NextI() returns (e: Stat)
      requires Valid()
      modifies this, r, m
      ensures (View(), e) == Y86Isa.NextI(old(View()))
    {
      hide Fetch, Execute;
      var ok, f := FetchFields();
      if !ok { return ADR; }
      e := ExecuteFields(f);
    }

    method Run(maxSteps: nat) returns (step: nat, e: Stat)
      requires Valid()
      modifies this, r, m
      ensures (View(), e) == MachineRun(old(View()), maxSteps)
      ensures step <= maxSteps && (e == AOK ==> step == maxSteps)
    {
      hide Y86Isa.NextI, RegsOf;
      step, e := 0, AOK;
      while step < maxSteps && e == AOK
        invariant step <= maxSteps
        invariant MachineRun(old(View()), maxSteps) == if e == AOK then MachineRun(View(), maxSteps - step) else (View(), e)
      {
        e := NextI();
        step := step + 1;
      }
    }
  }

  lemma ZeroRegs(r: seq<Byte>)
    requires |r| >= REG_SIZE && forall k :: 0 <= k < |r| ==> r[k] == 0
    ensures RegsOf(r) == seq(15, i => 0)
  {
    forall i | 0 <= i < 15 ensures RegsOf(r)[i] == 0 {
      ZeroBytes(r[8 * i..8 * i + 8]);
    }
  }

  lemma {:induction false} ZeroBytes(bs: seq<Byte>)
    requires forall k :: 0 <= k < |bs| ==> bs[k] == 0
    ensures FromBytes(bs) == 0
  {
    if bs != [] { ZeroBytes(bs[1..]); }
  }
}
