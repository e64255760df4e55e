/**
  The trap entry and return code, as two instruction listings run by a small interpreter of a
  64-bit RISC-V hart: 32 registers, four supervisor CSRs and byte-addressed little-endian memory.
  Addresses and sums wrap around at 2^64, so every statement holds for every stack pointer.
 */
module TrapEntry {
  import opened TrapTypes
  import P = Priorities
  import R = Registry

  const WORDS: int := 0x1_0000_0000_0000_0000
  const CONTEXT_SIZE: int := 288
  const SP: nat := 2
  const T0: nat := 5
  const A0: nat := 10

  type byte = b: nat | b < 0x100
  type reg = r: nat | r < 32

  datatype Csr = Sstatus | Sepc | Scause | Stval

  datatype Csrs = Csrs(sstatus: word, sepc: word, scause: word, stval: word)

  datatype Machine = Machine(x: seq<word>, csrs: Csrs, mem: map<word, byte>)

  datatype Instr =
    | Addi(rd: reg, rs: reg, imm: int)
    | Sd(src: reg, off: nat, base: reg)
    | Ld(rd: reg, off: nat, base: reg)
    | Mv(rd: reg, rs: reg)
    | CsrR(rd: reg, csr: Csr)
    | CsrW(csr: Csr, rs: reg)

  /** `x0` is wired to zero. */
  predicate Hart(m: Machine) { |m.x| == 32 && m.x[0] == 0 }

  // ---------------------------------------------------------------- memory

  function Wrap(n: int): word { n % WORDS }

  function At(mem: map<word, byte>, a: word): byte { if a in mem then mem[a] else 0 }

  function Limit(n: nat): nat { if n == 0 then 1 else 0x100 * Limit(n - 1) }

  /** The little-endian value of the `n` bytes from `a` on. */
  function Load(mem: map<word, byte>, a: word, n: nat): (w: nat)
    ensures w < Limit(n)
    decreases n
  {
    if n == 0 then 0 else At(mem, a) + 0x100 * Load(mem, Wrap(a + 1), n - 1)
  }

  function Store(mem: map<word, byte>, a: word, w: nat, n: nat): map<word, byte>
    decreases n
  {
    if n == 0 then mem else Store(mem[a := w % 0x100], Wrap(a + 1), w / 0x100, n - 1)
  }

  /** Whether `b` is one of the `n` bytes from `a` on, going round at the end of the address space. */
  predicate Within(b: word, a: word, n: nat) { Wrap(b - a) < n }

  lemma {:induction false} StoreFrame(mem: map<word, byte>, a: word, w: nat, n: nat)
    requires n < WORDS
    ensures forall b: word | !Within(b, a, n) :: At(Store(mem, a, w, n), b) == At(mem, b)
    decreases n
  {
    if n > 0 {
      StoreFrame(mem[a := w % 0x100], Wrap(a + 1), w / 0x100, n - 1);
    }
  }

  lemma {:induction false} LoadSame(p: map<word, byte>, q: map<word, byte>, a: word, n: nat)
    requires n < WORDS
    requires forall b: word | Within(b, a, n) :: At(p, b) == At(q, b)
    ensures Load(p, a, n) == Load(q, a, n)
    decreases n
  {
    if n > 0 {
      assert Within(a, a, n);
      forall b: word | Within(b, Wrap(a + 1), n - 1) ensures At(p, b) == At(q, b) {
        assert Within(b, a, n);
      }
      LoadSame(p, q, Wrap(a + 1), n - 1);
    }
  }

  lemma {:induction false} LoadStored(mem: map<word, byte>, a: word, w: nat, n: nat)
    requires n < WORDS && w < Limit(n)
    ensures Load(Store(mem, a, w, n), a, n) == w
    decreases n
  {
    if n > 0 {
      var low, next := mem[a := w % 0x100], Wrap(a + 1);
      LoadStored(low, next, w / 0x100, n - 1);
      StoreFrame(low, next, w / 0x100, n - 1);
      assert !Within(a, next, n - 1);
    }
  }

  lemma WordLimit()
    ensures Limit(8) == WORDS
  {
    assert Limit(4) == 0x1_0000_0000;
  }

  function LoadWord(mem: map<word, byte>, a: word): word {
    WordLimit();
    Load(mem, a, 8)
  }

  // ---------------------------------------------------------------- the interpreter

  function Read(c: Csrs, csr: Csr): word {
    match csr
    case Sstatus => c.sstatus
    case Sepc => c.sepc
    case Scause => c.scause
    case Stval => c.stval
  }

  function Write(c: Csrs, csr: Csr, w: word): Csrs {
    match csr
    case Sstatus => c.(sstatus := w)
    case Sepc => c.(sepc := w)
    case Scause => c.(scause := w)
    case Stval => c.(stval := w)
  }

  function Set(m: Machine, r: reg, w: word): (t: Machine)
    requires Hart(m)
    ensures Hart(t)
  {
    if r == 0 then m else m.(x := m.x[r := w])
  }

  function Step(i: Instr, m: Machine): (t: Machine)
    requires Hart(m)
    ensures Hart(t)
  {
    match i
    case Addi(rd, rs, imm) => Set(m, rd, Wrap(m.x[rs] + imm))
    case Sd(src, off, base) => m.(mem := Store(m.mem, Wrap(m.x[base] + off), m.x[src], 8))
    case Ld(rd, off, base) => Set(m, rd, LoadWord(m.mem, Wrap(m.x[base] + off)))
    case Mv(rd, rs) => Set(m, rd, m.x[rs])
    case CsrR(rd, csr) => Set(m, rd, Read(m.csrs, csr))
    case CsrW(csr, rs) => m.(csrs := Write(m.csrs, csr, m.x[rs]))
  }

  function Run(p: seq<Instr>, m: Machine): (t: Machine)
    requires Hart(m)
    ensures Hart(t)
  {
    if p == [] then m else Run(p[1..], Step(p[0], m))
  }

  lemma {:induction false} RunConcat(p: seq<Instr>, q: seq<Instr>, m: Machine)
    requires Hart(m)
    ensures Run(p + q, m) == Run(q, Run(p, m))
    decreases |p|
  {
    if p == [] {
      assert p + q == q;
    } else {
      assert (p + q)[0] == p[0] && (p + q)[1..] == p[1..] + q;
      RunConcat(p[1..], q, Step(p[0], m));
    }
  }

  // ---------------------------------------------------------------- the listings

  const SAVES: seq<Instr> := [
    Sd(1, 8, SP), Sd(2, 16, SP), Sd(3, 24, SP), Sd(4, 32, SP), Sd(5, 40, SP), Sd(6, 48, SP),
    Sd(7, 56, SP), Sd(8, 64, SP), Sd(9, 72, SP), Sd(10, 80, SP), Sd(11, 88, SP), Sd(12, 96, SP),
    Sd(13, 104, SP), Sd(14, 112, SP), Sd(15, 120, SP), Sd(16, 128, SP), Sd(17, 136, SP),
    Sd(18, 144, SP), Sd(19, 152, SP), Sd(20, 160, SP), Sd(21, 168, SP), Sd(22, 176, SP),
    Sd(23, 184, SP), Sd(24, 192, SP), Sd(25, 200, SP), Sd(26, 208, SP), Sd(27, 216, SP),
    Sd(28, 224, SP), Sd(29, 232, SP), Sd(30, 240, SP), Sd(31, 248, SP)]

  const SAVE_CSRS: seq<Instr> := [
    CsrR(T0, Sstatus), Sd(T0, 256, SP),
    CsrR(T0, Sepc), Sd(T0, 264, SP),
    CsrR(T0, Scause), Sd(T0, 272, SP),
    CsrR(T0, Stval), Sd(T0, 280, SP)]

  const ENTRY: seq<Instr> := [Addi(SP, SP, -CONTEXT_SIZE)] + SAVES + SAVE_CSRS + [Mv(A0, SP)]

  const RESTORE_CSRS: seq<Instr> := [
    Ld(T0, 256, SP), CsrW(Sstatus, T0), Ld(T0, 264, SP), CsrW(Sepc, T0)]

  const RESTORE_RA: seq<Instr> := [Ld(1, 8, SP)]

  const RESTORES: seq<Instr> := [
    Ld(3, 24, SP), Ld(4, 32, SP), Ld(5, 40, SP), Ld(6, 48, SP), Ld(7, 56, SP),
    Ld(8, 64, SP), Ld(9, 72, SP), Ld(10, 80, SP), Ld(11, 88, SP), Ld(12, 96, SP),
    Ld(13, 104, SP), Ld(14, 112, SP), Ld(15, 120, SP), Ld(16, 128, SP), Ld(17, 136, SP),
    Ld(18, 144, SP), Ld(19, 152, SP), Ld(20, 160, SP), Ld(21, 168, SP), Ld(22, 176, SP),
    Ld(23, 184, SP), Ld(24, 192, SP), Ld(25, 200, SP), Ld(26, 208, SP), Ld(27, 216, SP),
    Ld(28, 224, SP), Ld(29, 232, SP), Ld(30, 240, SP), Ld(31, 248, SP)]

  const RETURN: seq<Instr> :=
    RESTORE_CSRS + RESTORE_RA + RESTORES + [Ld(SP, 16, SP), Addi(SP, SP, CONTEXT_SIZE)]

  // ---------------------------------------------------------------- the trap context

  /** Word `s` of the context at `f`. */
  function Slot(mem: map<word, byte>, f: word, s: nat): word { LoadWord(mem, Wrap(f + 8 * s)) }

  function Saved(x: Registers, c: Csrs): TrapContext { TrapContext(x, c.sstatus, c.sepc, c.scause, c.stval) }

  /** What Rust code reads through a `TrapContext` pointer `f`. */
  function Context(mem: map<word, byte>, f: word): TrapContext {
    TrapContext(
      seq(32, i requires 0 <= i < 32 => Slot(mem, f, i)),
      Slot(mem, f, 32), Slot(mem, f, 33), Slot(mem, f, 34), Slot(mem, f, 35))
  }

  lemma WrapCases(n: int)
    requires -WORDS < n < 2 * WORDS
    ensures Wrap(n) == if n < 0 then n + WORDS else if n < WORDS then n else n - WORDS
  {
  }

  /** The bytes of word `s`, counted from the start of the context. */
  lemma SlotBytes(b: word, f: word, s: nat)
    requires s < 36
    ensures Within(b, Wrap(f + 8 * s), 8) <==> 8 * s <= Wrap(b - f) < 8 * s + 8
  {
    hide Wrap;
    var a := Wrap(f + 8 * s);
    WrapCases(f + 8 * s);
    WrapCases(b - a);
    WrapCases(b - f);
  }

  function WordOf(ctx: TrapContext, s: nat): word
    requires s < 36
  {
    if s < 32 then ctx.x[s] else if s == 32 then ctx.sstatus else if s == 33 then ctx.sepc
    else if s == 34 then ctx.scause else ctx.stval
  }

  /** The words of `ctx`, from number `s` on, written through a `TrapContext` pointer `f`. */
  function WriteContext(mem: map<word, byte>, f: word, ctx: TrapContext, s: nat := 0): map<word, byte>
    requires s <= 36
    decreases 36 - s
  {
    if s == 36 then mem else WriteContext(Store(mem, Wrap(f + 8 * s), WordOf(ctx, s), 8), f, ctx, s + 1)
  }

  lemma {:induction false} WrittenFrom(mem: map<word, byte>, f: word, ctx: TrapContext, s: nat)
    requires s <= 36
    ensures var after := WriteContext(mem, f, ctx, s);
            && (forall t: nat | t < 36 :: Slot(after, f, t) == if s <= t then WordOf(ctx, t) else Slot(mem, f, t))
            && (forall b: word | !Within(b, f, CONTEXT_SIZE) :: At(after, b) == At(mem, b))
    decreases 36 - s
  {
    hide Store, Load, At, Within, Slot, WordOf;
    if s < 36 {
      SlotWritten(mem, f, s, WordOf(ctx, s));
      WrittenFrom(Store(mem, Wrap(f + 8 * s), WordOf(ctx, s), 8), f, ctx, s + 1);
    }
  }

  /** What is written through the pointer is read back through it, and no other memory changes. */
  lemma ContextWritten(mem: map<word, byte>, f: word, ctx: TrapContext)
    ensures Context(WriteContext(mem, f, ctx), f) == ctx
    ensures forall b: word | !Within(b, f, CONTEXT_SIZE) :: At(WriteContext(mem, f, ctx), b) == At(mem, b)
  {
    hide Store, Load, At, Within, Slot, WriteContext;
    WrittenFrom(mem, f, ctx, 0);
  }

  /** Writing one word of the context leaves its other words and all other memory alone. */
  lemma SlotWritten(mem: map<word, byte>, f: word, s: nat, w: word)
    requires s < 36
    ensures var after := Store(mem, Wrap(f + 8 * s), w, 8);
            && Slot(after, f, s) == w
            && (forall t: nat | t < 36 && t != s :: Slot(after, f, t) == Slot(mem, f, t))
            && (forall b: word | !Within(b, f, CONTEXT_SIZE) :: At(after, b) == At(mem, b))
  {
    hide Store, Load, At, Wrap, Within;
    var a := Wrap(f + 8 * s);
    var after := Store(mem, a, w, 8);
    WordLimit();
    LoadStored(mem, a, w, 8);
    StoreFrame(mem, a, w, 8);
    forall t: nat | t < 36 && t != s ensures Slot(after, f, t) == Slot(mem, f, t) {
      var c := Wrap(f + 8 * t);
      forall b: word | Within(b, c, 8) ensures At(after, b) == At(mem, b) {
        SlotBytes(b, f, s);
        SlotBytes(b, f, t);
      }
      LoadSame(after, mem, c, 8);
    }
    forall b: word | !Within(b, f, CONTEXT_SIZE) ensures At(after, b) == At(mem, b) {
      SlotBytes(b, f, s);
      assert !Within(b, a, 8) by { InContext(b, f, s); }
    }
  }

  lemma InContext(b: word, f: word, s: nat)
    requires s < 36
    ensures Within(b, Wrap(f + 8 * s), 8) ==> Within(b, f, CONTEXT_SIZE)
  {
    SlotBytes(b, f, s);
  }

  // ---------------------------------------------------------------- saving

  /** `Sd` instructions over the words of the context, numbered on from `s`. */
  ghost predicate SavesFrom(p: seq<Instr>, s: nat) {
    && s >= 1 && s + |p| == 32
    && forall k | 0 <= k < |p| :: p[k] == Sd(s + k, 8 * (s + k), SP)
  }

  /** The run of stores: each word numbered `s` or more gets its register; nothing else changes. */
  lemma {:induction false} SavesRun(p: seq<Instr>, s: nat, m: Machine)
    requires Hart(m) && SavesFrom(p, s)
    ensures var t := Run(p, m);
            && t.x == m.x && t.csrs == m.csrs
            && (forall i: nat | i < 36 ::
                  Slot(t.mem, m.x[SP], i) == if s <= i < 32 then m.x[i] else Slot(m.mem, m.x[SP], i))
            && (forall b: word | !Within(b, m.x[SP], CONTEXT_SIZE) :: At(t.mem, b) == At(m.mem, b))
    decreases |p|
  {
    hide Store, Load, Within, At, Slot;
    if p != [] {
      assert p[0] == Sd(s, 8 * s, SP);
      SlotWritten(m.mem, m.x[SP], s, m.x[s]);
      var next := Step(p[0], m);
      SavesRun(p[1..], s + 1, next);
    }
  }

  /** `csrr t0, csr; sd t0, 8*s(sp)`. */
  lemma SaveCsr(csr: Csr, s: nat, m: Machine)
    requires Hart(m) && s < 36
    ensures var t := Run([CsrR(T0, csr), Sd(T0, 8 * s, SP)], m);
            && t.x == m.x[T0 := Read(m.csrs, csr)] && t.csrs == m.csrs
            && (forall i: nat | i < 36 ::
                  Slot(t.mem, m.x[SP], i) == if i == s then Read(m.csrs, csr) else Slot(m.mem, m.x[SP], i))
            && (forall b: word | !Within(b, m.x[SP], CONTEXT_SIZE) :: At(t.mem, b) == At(m.mem, b))
  {
    hide Store, Load, Within, At, Slot;
    var p := [CsrR(T0, csr), Sd(T0, 8 * s, SP)];
    var u := Step(p[0], m);
    assert p[1..] == [p[1]] && p[1..][1..] == [];
    assert Run(p, m) == Run(p[1..], u) == Run(p[1..][1..], Step(p[1], u)) == Step(p[1], u);
    SlotWritten(m.mem, m.x[SP], s, Read(m.csrs, csr));
  }

  lemma SaveCsrsRun(m: Machine)
    requires Hart(m)
    ensures var t := Run(SAVE_CSRS, m);
            && t.x == m.x[T0 := m.csrs.stval] && t.csrs == m.csrs
            && (forall i: nat | i < 32 :: Slot(t.mem, m.x[SP], i) == Slot(m.mem, m.x[SP], i))
            && Slot(t.mem, m.x[SP], 32) == m.csrs.sstatus && Slot(t.mem, m.x[SP], 33) == m.csrs.sepc
            && Slot(t.mem, m.x[SP], 34) == m.csrs.scause && Slot(t.mem, m.x[SP], 35) == m.csrs.stval
            && (forall b: word | !Within(b, m.x[SP], CONTEXT_SIZE) :: At(t.mem, b) == At(m.mem, b))
  {
    hide Run, Step, Store, Load, Within, At, Slot;
    var p1 := [CsrR(T0, Sstatus), Sd(T0, 8 * 32, SP)];
    var p2 := [CsrR(T0, Sepc), Sd(T0, 8 * 33, SP)];
    var p3 := [CsrR(T0, Scause), Sd(T0, 8 * 34, SP)];
    var p4 := [CsrR(T0, Stval), Sd(T0, 8 * 35, SP)];
    assert SAVE_CSRS == p1 + (p2 + (p3 + p4));
    RunConcat(p1, p2 + (p3 + p4), m);
    var m1 := Run(p1, m);
    RunConcat(p2, p3 + p4, m1);
    var m2 := Run(p2, m1);
    RunConcat(p3, p4, m2);
    var m3 := Run(p3, m2);
    var m4 := Run(p4, m3);
    SaveCsr(Sstatus, 32, m);
    SaveCsr(Sepc, 33, m1);
    SaveCsr(Scause, 34, m2);
    SaveCsr(Stval, 35, m3);
    assert Run(SAVE_CSRS, m) == m4;
    assert m1.x[SP] == m.x[SP] && m2.x[SP] == m.x[SP] && m3.x[SP] == m.x[SP];
    var f := m.x[SP];
    assert Slot(m1.mem, f, 32) == m.csrs.sstatus;
    assert Slot(m4.mem, f, 35) == m.csrs.stval;
  }

  lemma One(i: Instr, m: Machine)
    requires Hart(m)
    ensures Run([i], m) == Step(i, m)
  {
    assert [i][1..] == [];
    assert Run([i], m) == Run([i][1..], Step(i, m));
  }

  /**
    The entry code builds, right under the interrupted stack pointer, the context that the handler
    is given in `a0`: every register but `sp` as it was, the four CSRs, and in the place of `sp`
    the address of the context itself. Word 0 and all memory outside the context keep their bytes.
   */
  lemma EntrySaves(m: Machine)
    requires Hart(m)
    ensures var f, t := Wrap(m.x[SP] - CONTEXT_SIZE), Run(ENTRY, m);
            && t.x == m.x[SP := f][T0 := m.csrs.stval][A0 := f] && t.csrs == m.csrs
            && Context(t.mem, f) == Saved(m.x[SP := f][0 := Slot(m.mem, f, 0)], m.csrs)
            && (forall b: word | !Within(b, f, CONTEXT_SIZE) :: At(t.mem, b) == At(m.mem, b))
  {
    hide Run, Store, Load, Within, At, Slot;
    var f := Wrap(m.x[SP] - CONTEXT_SIZE);
    var head, tail := [Addi(SP, SP, -CONTEXT_SIZE)], [Mv(A0, SP)];
    assert ENTRY == head + (SAVES + (SAVE_CSRS + tail));
    RunConcat(head, SAVES + (SAVE_CSRS + tail), m);
    One(head[0], m);
    var m1 := Run(head, m);
    RunConcat(SAVES, SAVE_CSRS + tail, m1);
    assert SavesFrom(SAVES, 1);
    SavesRun(SAVES, 1, m1);
    var m2 := Run(SAVES, m1);
    RunConcat(SAVE_CSRS, tail, m2);
    SaveCsrsRun(m2);
    var m3 := Run(SAVE_CSRS, m2);
    One(tail[0], m3);
  }

  // ---------------------------------------------------------------- restoring

  /** `Ld` instructions that read the words of the context, numbered on from `s`. */
  ghost predicate LoadsFrom(p: seq<Instr>, s: nat) {
    && s > SP && s + |p| == 32
    && forall k | 0 <= k < |p| :: p[k] == Ld(s + k, 8 * (s + k), SP)
  }

  lemma {:induction false} LoadsRun(p: seq<Instr>, s: nat, m: Machine)
    requires Hart(m) && LoadsFrom(p, s)
    ensures var t := Run(p, m);
            && t.mem == m.mem && t.csrs == m.csrs
            && (forall i: nat | i < 32 :: t.x[i] == if s <= i then Slot(m.mem, m.x[SP], i) else m.x[i])
    decreases |p|
  {
    hide Store, Load;
    if p != [] {
      assert p[0] == Ld(s, 8 * s, SP);
      LoadsRun(p[1..], s + 1, Step(p[0], m));
    }
  }

  /** `ld t0, 8*s(sp); csrw csr, t0`. */
  lemma {:induction false} RestoreCsr(csr: Csr, s: nat, m: Machine)
    requires Hart(m)
    ensures var t := Run([Ld(T0, 8 * s, SP), CsrW(csr, T0)], m);
            && t == Machine(m.x[T0 := Slot(m.mem, m.x[SP], s)],
                            Write(m.csrs, csr, Slot(m.mem, m.x[SP], s)), m.mem)
  {
    hide Load;
    var p := [Ld(T0, 8 * s, SP), CsrW(csr, T0)];
    var u := Step(p[0], m);
    assert p[1..] == [p[1]] && p[1..][1..] == [];
    assert Run(p, m) == Run(p[1..], u) == Run(p[1..][1..], Step(p[1], u)) == Step(p[1], u);
  }

  lemma LoadsOf(m: Machine, r: reg)
    requires Hart(m) && r > 0
    ensures Step(Ld(r, 8 * r, SP), m) == m.(x := m.x[r := Slot(m.mem, m.x[SP], r)])
  {
    hide Load;
  }

  /** The loads of the general registers and of `sp`, and the final step over the context. */
  lemma RegistersRestored(m: Machine)
    requires Hart(m)
    ensures var t := Run(RESTORE_RA + RESTORES + ([Ld(SP, 16, SP)] + [Addi(SP, SP, CONTEXT_SIZE)]), m);
            && t.mem == m.mem && t.csrs == m.csrs
            && (forall i: nat | 0 < i < 32 && i != SP :: t.x[i] == Slot(m.mem, m.x[SP], i))
            && t.x[SP] == Wrap(Slot(m.mem, m.x[SP], SP) + CONTEXT_SIZE)
  {
    hide Run, Load, Slot, Step, Wrap;
    var first, rest := RESTORE_RA, RESTORES;
    var last, lift := [Ld(SP, 16, SP)], [Addi(SP, SP, CONTEXT_SIZE)];
    assert LoadsFrom(rest, 3);
    assert first + rest + (last + lift) == first + (rest + (last + lift));
    RunConcat(first, rest + (last + lift), m);
    One(first[0], m);
    LoadsOf(m, 1);
    var m1 := Run(first, m);
    RunConcat(rest, last + lift, m1);
    LoadsRun(rest, 3, m1);
    var m2 := Run(rest, m1);
    RunConcat(last, lift, m2);
    One(last[0], m2);
    LoadsOf(m2, SP);
    var m3 := Run(last, m2);
    One(lift[0], m3);
    assert Step(lift[0], m3) == m3.(x := m3.x[SP := Wrap(m3.x[SP] + CONTEXT_SIZE)]) by { AddiStep(m3); }
  }

  lemma AddiStep(m: Machine)
    requires Hart(m)
    ensures Step(Addi(SP, SP, CONTEXT_SIZE), m) == m.(x := m.x[SP := Wrap(m.x[SP] + CONTEXT_SIZE)])
  {
  }

  /**
    The return code, from any machine whose `sp` is `f`: the context at `f` is loaded back, `sp`
    ends 288 above the word saved for it, and memory, `scause` and `stval` are left alone.
   */
  lemma {:induction false} ReturnRestores(h: Machine)
    requires Hart(h)
    ensures var ctx, t := Context(h.mem, h.x[SP]), Run(RETURN, h);
            && t.x == ctx.x[0 := 0][SP := Wrap(ctx.x[SP] + CONTEXT_SIZE)]
            && t.csrs == h.csrs.(sstatus := ctx.sstatus, sepc := ctx.sepc)
            && t.mem == h.mem
  {
    hide Run, Load, Slot, Step, Wrap;
    var r1, r2 := [Ld(T0, 8 * 32, SP), CsrW(Sstatus, T0)], [Ld(T0, 8 * 33, SP), CsrW(Sepc, T0)];
    var regs := RESTORE_RA + RESTORES + ([Ld(SP, 16, SP)] + [Addi(SP, SP, CONTEXT_SIZE)]);
    assert RESTORE_CSRS == r1 + r2;
    assert RETURN == r1 + (r2 + regs);
    RunConcat(r1, r2 + regs, h);
    RestoreCsr(Sstatus, 32, h);
    var m1 := Run(r1, h);
    RunConcat(r2, regs, m1);
    RestoreCsr(Sepc, 33, m1);
    RegistersRestored(Run(r2, m1));
  }

  // ---------------------------------------------------------------- a whole trap

  /** What is asked of a handler: that it comes back with `sp` as it found it. All else is its own affair. */
  ghost predicate Returned(m: Machine, h: Machine) {
    Hart(m) && Hart(h) && h.x[SP] == Run(ENTRY, m).x[SP]
  }

  /**
    A whole trap, for every interrupted machine and every handler that returns, whatever it leaves in
    the other registers and wherever it writes: at `sret` the machine is what the context says, with
    `sp` counted from the context's word for it, and memory is as the handler left it; so a byte outside
    the context that the handler left alone is as it was before the trap. If the context is as the entry
    code left it, the interrupted registers, `sstatus` and `sepc` are all back.
   */
  lemma {:induction false} TrapRoundTrip(m: Machine, h: Machine)
    requires Returned(m, h)
    ensures var f := Wrap(m.x[SP] - CONTEXT_SIZE);
            var e, ctx, t := Run(ENTRY, m), Context(h.mem, f), Run(RETURN, h);
            && t.x == ctx.x[0 := 0][SP := Wrap(ctx.x[SP] + CONTEXT_SIZE)]
            && t.csrs.sstatus == ctx.sstatus && t.csrs.sepc == ctx.sepc
            && t.mem == h.mem
            && (forall b: word | !Within(b, f, CONTEXT_SIZE) && At(h.mem, b) == At(e.mem, b) ::
                  At(t.mem, b) == At(m.mem, b))
            && (ctx == Context(e.mem, f) ==>
                  t.x == m.x && t.csrs.sstatus == m.csrs.sstatus && t.csrs.sepc == m.csrs.sepc)
  {
    hide Run, Load, Slot, At, Within;
    EntrySaves(m);
    ReturnRestores(h);
    var f := Wrap(m.x[SP] - CONTEXT_SIZE);
    var ctx, t := Context(h.mem, f), Run(RETURN, h);
    assert Wrap(f + CONTEXT_SIZE) == m.x[SP];
    if ctx == Context(Run(ENTRY, m).mem, f) {
      assert t.x == m.x;
    }
  }

  /**
    The word saved for `sp` is the lowered one, not the interrupted one: a handler that puts the
    stack pointer it wants into the context gets it 288 too high, for every stack pointer.
   */
  lemma {:induction false} SavedSpIsLowered(m: Machine, h: Machine)
    requires Returned(m, h)
    ensures Context(Run(ENTRY, m).mem, h.x[SP]).x[SP] != m.x[SP]
    ensures var wanted := Context(h.mem, h.x[SP]).x[SP];
            Run(RETURN, h).x[SP] == Wrap(wanted + CONTEXT_SIZE) != wanted
  {
    hide Run, Load, Slot, At, Within;
    EntrySaves(m);
    ReturnRestores(h);
  }

  // ---------------------------------------------------------------- from the trap to its handlers and back

  /** The context and the result after dispatch over these registrations. */
  function Outcome(regs: seq<R.Registration>, ctx: TrapContext): (TrapContext, R.TrapResult) {
    R.Dispatch(P.StableSort(R.OfType(regs, ToTrapType(ctx.scause)), R.EntryPriority), ctx)
  }

  function Dispatched(regs: seq<R.Registration>, ctx: TrapContext): TrapContext { Outcome(regs, ctx).0 }

  /**
    Entry code, dispatch and return code together: the handlers that run are those registered for the
    cause of the interrupted hart, and the hart resumes with the registers, status and program counter
    that the last of them left in the context. With no handler for the cause the hart resumes as it was
    interrupted.
   */
  lemma DispatchedTrap(m: Machine, h: Machine, regs: seq<R.Registration>)
    requires Returned(m, h)
    ensures var f := Wrap(m.x[SP] - CONTEXT_SIZE);
            var saved := Saved(m.x[SP := f][0 := Slot(m.mem, f, 0)], m.csrs);
            var ctx, t := Dispatched(regs, saved), Run(RETURN, h);
            Context(h.mem, f) == Dispatched(regs, Context(Run(ENTRY, m).mem, f)) ==>
            && t.x == ctx.x[0 := 0][SP := Wrap(ctx.x[SP] + CONTEXT_SIZE)]
            && t.csrs.sstatus == ctx.sstatus && t.csrs.sepc == ctx.sepc
            && (R.OfType(regs, ToTrapType(m.csrs.scause)) == [] ==>
                  t.x == m.x && t.csrs.sstatus == m.csrs.sstatus && t.csrs.sepc == m.csrs.sepc)
  {
    hide Run, Load, Slot, At, Within, ToTrapType, R.OfType;
    EntrySaves(m);
    TrapRoundTrip(m, h);
  }

  // ---------------------------------------------------------------- the hart

  /** The hart itself, which changes its register file, CSRs and memory instruction by instruction. */
  class RiscvHart {
    const x: array<word>
    var csrs: Csrs
    var mem: map<word, byte>

    ghost predicate Valid() reads this, x { x.Length == 32 && x[0] == 0 }

    ghost function State(): (m: Machine)
      requires Valid()
      reads this, x
      ensures Hart(m)
    {
      Machine(x[..], csrs, mem)
    }

    constructor (csrs: Csrs, mem: map<word, byte>)
      ensures Valid() && fresh(x)
      ensures State() == Machine(seq(32, _ => 0), csrs, mem)
    {
      x := new word[32](_ => 0);
      this.csrs, this.mem := csrs, mem;
      new;
      assert x[..] == seq(32, _ => 0);
    }

    method SetRegister(r: reg, w: word)
      requires Valid()
      modifies x
      ensures Valid() && State() == Set(old(State()), r, w)
    {
      if r != 0 {
        x[r] := w;
      }
    }

    /** Carries out one instruction. */
    method Execute(i: Instr)
      requires Valid()
      modifies this, x
      ensures Valid() && State() == Step(i, old(State()))
    {
      match i
      case Addi(rd, rs, imm) => SetRegister(rd, Wrap(x[rs] + imm));
      case Sd(src, off, base) => mem := Store(mem, Wrap(x[base] + off), x[src], 8);
      case Ld(rd, off, base) => SetRegister(rd, LoadWord(mem, Wrap(x[base] + off)));
      case Mv(rd, rs) => SetRegister(rd, x[rs]);
      case CsrR(rd, csr) => SetRegister(rd, Read(csrs, csr));
      case CsrW(csr, rs) => csrs := Write(csrs, csr, x[rs]);
    }

    method ExecuteAll(p: seq<Instr>)
      requires Valid()
      modifies this, x
      ensures Valid() && State() == Run(p, old(State()))
    {
      hide Step, Set;
      var k := 0;
      assert p[0..] == p;
      while k < |p|
        invariant 0 <= k <= |p| && Valid()
        invariant Run(p[k..], State()) == Run(p, old(State()))
      {
        assert p[k..][0] == p[k] && p[k..][1..] == p[k + 1..];
        Execute(p[k]);
        k := k + 1;
      }
    }

    /** `__trap_entry` up to the call of the handler. */
    method TrapEntry()
      requires Valid()
      modifies this, x
      ensures Valid() && csrs == old(csrs)
      ensures var f := Wrap(old(x[SP]) - CONTEXT_SIZE);
              && x[SP] == f && x[A0] == f
              && Context(mem, f) == Saved(old(x[..])[SP := f][0 := Slot(old(mem), f, 0)], old(csrs))
              && (forall b: word | !Within(b, f, CONTEXT_SIZE) :: At(mem, b) == At(old(mem), b))
    {
      hide Run, Slot, Within, At;
      EntrySaves(State());
      ExecuteAll(ENTRY);
    }

    method ReadContext(f: word) returns (ctx: TrapContext)
      ensures ctx == Context(mem, f)
    {
      ctx := Context(mem, f);
    }

    /** The context edited in place through its pointer. */
    method EditContext(f: word, ctx: TrapContext)
      requires Valid()
      modifies this`mem
      ensures Valid() && Context(mem, f) == ctx
      ensures forall b: word | !Within(b, f, CONTEXT_SIZE) :: At(mem, b) == At(old(mem), b)
    {
      hide WriteContext, Context, At, Within;
      ContextWritten(mem, f, ctx);
      mem := WriteContext(mem, f, ctx);
    }

    /** `__trap_return` up to `sret`. */
    method TrapReturn()
      requires Valid()
      modifies this, x
      ensures Valid() && mem == old(mem)
      ensures var ctx := Context(mem, old(x[SP]));
              && x[..] == ctx.x[0 := 0][SP := Wrap(ctx.x[SP] + CONTEXT_SIZE)]
              && csrs == old(csrs).(sstatus := ctx.sstatus, sepc := ctx.sepc)
    {
      hide Run, Slot;
      ReturnRestores(State());
      ExecuteAll(RETURN);
    }
  }
}
