/** src/interrupt.asm, timer_stub: what is saved on a stack when a task is interrupted, and what popa and iret take back. */
module ContextSwitch {
  import opened Words

  datatype Cpu = Cpu(edi: word, esi: word, ebp: word, ebx: word, edx: word, ecx: word, eax: word,
                     eip: word, cs: word, eflags: word, esp: word, ss: word)

  /** iret and interrupts switch stacks when the code segment is not ring 0. */
  predicate Outer(cs: word) { cs % 4 != 0 }

  function FrameSize(cs: word): nat { if Outer(cs) then 52 else 44 }

  /** The words on the stack, lowest address first: pusha's eight (the slot of esp is not restored), then the processor's. */
  function Frame(cpu: Cpu, spSlot: word): (ws: seq<word>)
    ensures 4 * |ws| == FrameSize(cpu.cs)
  {
    [cpu.edi, cpu.esi, cpu.ebp, spSlot, cpu.ebx, cpu.edx, cpu.ecx, cpu.eax, cpu.eip, cpu.cs, cpu.eflags]
    + if Outer(cpu.cs) then [cpu.esp, cpu.ss] else []
  }

  /** The words ws lie in memory from offset `at` upwards. */
  ghost predicate FrameAt(m: seq<byte>, at: nat, ws: seq<word>)
  {
    at + 4 * |ws| <= |m| && forall k {:trigger ws[k]} :: 0 <= k < |ws| ==> Load(m, at + 4 * k) == ws[k]
  }

  predicate CanResume(m: seq<byte>, base: nat, sp: nat)
  {
    && base <= sp && sp - base + 44 <= |m|
    && sp - base + FrameSize(Load(m, sp - base + 36)) <= |m|
    && sp + 44 < WORD_LIMIT
  }

  /** mov esp, eax; popa; iret with eax = sp, on a processor whose ring 0 stack segment is ss0. */
  function Resume(m: seq<byte>, base: nat, sp: nat, ss0: word): Cpu
    requires CanResume(m, base, sp)
  {
    var at := sp - base;
    var cs := Load(m, at + 36);
    Cpu(Load(m, at), Load(m, at + 4), Load(m, at + 8), Load(m, at + 16), Load(m, at + 20), Load(m, at + 24), Load(m, at + 28),
        Load(m, at + 32), cs, Load(m, at + 40),
        if Outer(cs) then Load(m, at + 44) else sp + 44,
        if Outer(cs) then Load(m, at + 48) else ss0)
  }

  /** The interrupt and pusha: memory and the stack pointer handed to the timer handler. */
  ghost function Interrupted(m: seq<byte>, base: nat, top: nat, cpu: Cpu, spSlot: word): (seq<byte>, nat)
    requires base + FrameSize(cpu.cs) <= top <= base + |m|
  {
    (StoredAll(m, top - FrameSize(cpu.cs) - base, Frame(cpu, spSlot)), top - FrameSize(cpu.cs))
  }

  /** Where each register lies in a frame. */
  lemma FrameWords(m: seq<byte>, at: nat, cpu: Cpu, spSlot: word)
    requires FrameAt(m, at, Frame(cpu, spSlot))
    ensures at + FrameSize(cpu.cs) <= |m|
    ensures Load(m, at) == cpu.edi && Load(m, at + 4) == cpu.esi && Load(m, at + 8) == cpu.ebp && Load(m, at + 12) == spSlot
    ensures Load(m, at + 16) == cpu.ebx && Load(m, at + 20) == cpu.edx && Load(m, at + 24) == cpu.ecx && Load(m, at + 28) == cpu.eax
    ensures Load(m, at + 32) == cpu.eip && Load(m, at + 36) == cpu.cs && Load(m, at + 40) == cpu.eflags
    ensures cpu.cs % 4 != 0 ==> Load(m, at + 44) == cpu.esp && Load(m, at + 48) == cpu.ss
  {
    var ws := Frame(cpu, spSlot);
    assert ws[0] == Load(m, at) && ws[1] == Load(m, at + 4) && ws[2] == Load(m, at + 8) && ws[3] == Load(m, at + 12);
    assert ws[4] == Load(m, at + 16) && ws[5] == Load(m, at + 20) && ws[6] == Load(m, at + 24) && ws[7] == Load(m, at + 28);
    assert ws[8] == Load(m, at + 32) && ws[9] == Load(m, at + 36) && ws[10] == Load(m, at + 40);
    if Outer(cpu.cs) {
      assert ws[11] == Load(m, at + 44) && ws[12] == Load(m, at + 48);
    }
  }

  lemma FrameResumes(m: seq<byte>, base: nat, sp: nat, cpu: Cpu, spSlot: word, ss0: word)
    requires base <= sp && sp + 44 < WORD_LIMIT && FrameAt(m, sp - base, Frame(cpu, spSlot))
    requires !Outer(cpu.cs) ==> cpu.esp == sp + 44 && cpu.ss == ss0
    ensures CanResume(m, base, sp) && Resume(m, base, sp, ss0) == cpu
  {
    FrameWords(m, sp - base, cpu, spSlot);
  }

  /** What an interrupt leaves on the stack: the processor's words above pusha's, the last one pushed lowest. */
  lemma InterruptWords(m: seq<byte>, base: nat, top: nat, cpu: Cpu, spSlot: word)
    requires base + FrameSize(cpu.cs) <= top <= base + |m|
    ensures var (m', sp) := Interrupted(m, base, top, cpu, spSlot);
      && sp == top - (if cpu.cs % 4 != 0 then 52 else 44) && |m'| == |m| && base <= sp
      && Load(m', sp - base) == cpu.edi && Load(m', sp - base + 4) == cpu.esi && Load(m', sp - base + 8) == cpu.ebp
      && Load(m', sp - base + 16) == cpu.ebx && Load(m', sp - base + 20) == cpu.edx && Load(m', sp - base + 24) == cpu.ecx
      && Load(m', sp - base + 28) == cpu.eax && Load(m', sp - base + 32) == cpu.eip && Load(m', sp - base + 36) == cpu.cs
      && Load(m', sp - base + 40) == cpu.eflags
      && (cpu.cs % 4 != 0 ==> Load(m', sp - base + 44) == cpu.esp && Load(m', sp - base + 48) == cpu.ss)
      && (forall k :: 0 <= k < |m| && !(sp <= base + k < top) ==> m'[k] == m[k])
  {
    var (m', sp) := Interrupted(m, base, top, cpu, spSlot);
    FrameStored(m, sp - base, Frame(cpu, spSlot));
    FrameWords(m', sp - base, cpu, spSlot);
  }

  lemma FrameStored(m: seq<byte>, at: nat, ws: seq<word>)
    requires at + 4 * |ws| <= |m|
    ensures FrameAt(StoredAll(m, at, ws), at, ws)
  {
    forall k | 0 <= k < |ws|
      ensures Load(StoredAll(m, at, ws), at + 4 * k) == ws[k]
    {
      LoadStoredAll(m, at, ws, k);
    }
  }

  /**
   * A task resumed from the pointer saved at its interruption continues with every register
   * as it was. An interrupt in ring 0 pushes on the stack in use, one in ring 3 on `top`.
   */
  lemma ContextPreserved(m: seq<byte>, base: nat, top: nat, cpu: Cpu, spSlot: word, ss0: word)
    requires base + FrameSize(cpu.cs) <= top <= base + |m| && top < WORD_LIMIT
    requires !Outer(cpu.cs) ==> cpu.esp == top && cpu.ss == ss0
    ensures var (m', sp) := Interrupted(m, base, top, cpu, spSlot);
      CanResume(m', base, sp) && Resume(m', base, sp, ss0) == cpu
  {
    var (m', sp) := Interrupted(m, base, top, cpu, spSlot);
    FrameStored(m, sp - base, Frame(cpu, spSlot));
    FrameResumes(m', base, sp, cpu, spSlot, ss0);
  }

  /** What is resumed depends on the bytes of the frame only. */
  lemma ResumeSame(m: seq<byte>, m': seq<byte>, base: nat, sp: nat, ss0: word)
    requires CanResume(m, base, sp) && |m'| == |m|
    requires forall k :: sp - base <= k < sp - base + FrameSize(Load(m, sp - base + 36)) ==> m'[k] == m[k]
    ensures CanResume(m', base, sp) && Resume(m', base, sp, ss0) == Resume(m, base, sp, ss0)
  {
    var at := sp - base;
    LoadSame(m, m', at + 36);
    LoadSame(m, m', at);
    LoadSame(m, m', at + 4);
    LoadSame(m, m', at + 8);
    LoadSame(m, m', at + 16);
    LoadSame(m, m', at + 20);
    LoadSame(m, m', at + 24);
    LoadSame(m, m', at + 28);
    LoadSame(m, m', at + 32);
    LoadSame(m, m', at + 40);
    if Outer(Load(m, at + 36)) {
      LoadSame(m, m', at + 44);
      LoadSame(m, m', at + 48);
    }
  }

  /** A frame survives as long as its bytes do. */
  lemma FrameSurvives(m: seq<byte>, m': seq<byte>, at: nat, ws: seq<word>)
    requires FrameAt(m, at, ws) && |m'| == |m|
    requires forall k :: at <= k < at + 4 * |ws| ==> m'[k] == m[k]
    ensures FrameAt(m', at, ws)
  {
    forall k | 0 <= k < |ws|
      ensures Load(m', at + 4 * k) == ws[k]
    {
      LoadSame(m, m', at + 4 * k);
    }
  }

  /** Pushing a word below a frame. */
  lemma Pushed(m: seq<byte>, at: nat, ws: seq<word>, w: word)
    requires FrameAt(m, at, ws) && 4 <= at
    ensures FrameAt(Stored(m, at - 4, w), at - 4, [w] + ws)
  {
    var m' := Stored(m, at - 4, w);
    forall k | 0 <= k < |[w] + ws|
      ensures Load(m', at - 4 + 4 * k) == ([w] + ws)[k]
    {
      if k > 0 {
        assert ws[k - 1] == Load(m, at + 4 * (k - 1));
        LoadElsewhere(m, at - 4, w, at + 4 * (k - 1));
      }
    }
  }
}
