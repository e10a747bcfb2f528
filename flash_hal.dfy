/** The interrupt-driven flash programming of src/flash_hal.rs: the
    `FlashProcess` record that `irq_handler` advances one halfword per
    end-of-operation interrupt. The status flags the handler reads
    (`wrprterr`, `pgerr`, `eop`) are parameters; a halfword handed to
    `program_halfword` is recorded as an (address, value) write. Integer
    arithmetic is Rust's checked arithmetic: an overflow panics. */
module FlashHal {
  import opened Base

  const U32_LIMIT: int := 0x1_0000_0000
  const HALFWORD: int := 0x1_0000
  const RESET_ADDRESS: U32 := 0xFFFF_FFFF

  type U16 = x: int | 0 <= x < 0x1_0000
  type U64 = x: int | 0 <= x < 0x1_0000_0000_0000_0000

  datatype HalError = Timeout | WriteProtection | Programming | OptionByte

  datatype FlashProcedure = NoProcedure | ProgramHalfWord | ProgramWord | ProgramDoubleWord | PageErase | MassErase

  datatype ProgramType = HalfWord | Word | DoubleWord

  datatype FlashProcess = FlashProcess(procedure: FlashProcedure, address: U32, data: U64, dataRemaining: Byte,
                                       errorCode: Option<HalError>)

  /** The initial value of the `FLASH_PROCESS` static. */
  const IDLE_PROCESS: FlashProcess := FlashProcess(NoProcedure, 0, 0, 0, None)

  predicate IsProgramming(p: FlashProcedure)
  {
    p.ProgramHalfWord? || p.ProgramWord? || p.ProgramDoubleWord?
  }

  /** The number of halfwords a programming procedure writes. */
  function HalfwordCount(p: FlashProcedure): (n: nat)
    ensures IsProgramming(p) ==> n in {1, 2, 4}
  {
    match p
    case ProgramHalfWord => 1
    case ProgramWord => 2
    case ProgramDoubleWord => 4
    case _ => 0
  }

  /** How far the last halfword lies past the first: what the handler
      subtracts to report the start address (`address - 0/2/6`). */
  function EndOffset(p: FlashProcedure): (r: nat)
    ensures IsProgramming(p) ==> r == 2 * (HalfwordCount(p) - 1)
  {
    match p
    case ProgramWord => 2
    case ProgramDoubleWord => 6
    case _ => 0
  }

  /** The low 16 bits, `data as u16`. */
  function Low16(data: U64): U16
  {
    data % HALFWORD
  }

  /** The process `program_it(t, address, data)` builds. */
  function InitialProcess(t: ProgramType, address: U32, data: U64): (p: FlashProcess)
    ensures IsProgramming(p.procedure) && p.errorCode == None
    ensures p.dataRemaining == HalfwordCount(p.procedure)
    ensures p.address == address && p.data == data
    ensures t.HalfWord? ==> p.dataRemaining == 1
    ensures t.Word? ==> p.dataRemaining == 2
    ensures t.DoubleWord? ==> p.dataRemaining == 4
  {
    match t
    case HalfWord => FlashProcess(ProgramHalfWord, address, data, 1, None)
    case Word => FlashProcess(ProgramWord, address, data, 2, None)
    case DoubleWord => FlashProcess(ProgramDoubleWord, address, data, 4, None)
  }

  /** What one interrupt reports beside the new process: the address
      passed to the error callback, the halfword programmed next, the
      address passed to the end-of-operation callback, and whether the
      interrupt enables are cleared. */
  datatype IrqEffects = IrqEffects(errorAddress: Option<U32>, programmed: Option<(U32, U16)>,
                                   endAddress: Option<U32>, interruptsOff: bool)

  /** How `irq_handler` ends: normally, or in an arithmetic-overflow panic. */
  datatype IrqResult = Handled(process: FlashProcess, effects: IrqEffects) | Panics

  /** How the end-of-operation branch ends. */
  datatype EopResult = EopHandled(next: FlashProcess, programmed: Option<(U32, U16)>, endAddress: Option<U32>)
                     | EopPanics

  /** The error branch: the process stops with the address reset and the
      error recorded. */
  function Aborted(p: FlashProcess, wrprterr: bool): FlashProcess
  {
    p.(address := RESET_ADDRESS, errorCode := Some(if wrprterr then WriteProtection else Programming),
       procedure := NoProcedure)
  }

  /** The end-of-operation branch. */
  function EndOfOperation(p: FlashProcess): EopResult
  {
    if p.procedure.NoProcedure? then EopHandled(p, None, None)
    else if p.procedure.PageErase? || p.procedure.MassErase? then EopHandled(p.(procedure := NoProcedure), None, None)
    else if p.dataRemaining == 0 then EopPanics
    else
      var remaining := p.dataRemaining - 1;
      if remaining > 0 then
        if p.address + 2 >= U32_LIMIT then EopPanics
        else
          var next := p.(dataRemaining := remaining, address := p.address + 2, data := p.data / HALFWORD);
          EopHandled(next, Some((next.address, Low16(next.data))), None)
      else if p.address < EndOffset(p.procedure) then EopPanics
      else
        EopHandled(p.(dataRemaining := 0, address := RESET_ADDRESS, procedure := NoProcedure), None,
                   Some(p.address - EndOffset(p.procedure)))
  }

  /** One call of `irq_handler` with the status flags given. */
  function IrqStep(p: FlashProcess, wrprterr: bool, pgerr: bool, eop: bool): IrqResult
  {
    var afterError := if wrprterr || pgerr then Aborted(p, wrprterr) else p;
    var errorAddress := if wrprterr || pgerr then Some(p.address) else None;
    if !eop then Handled(afterError, IrqEffects(errorAddress, None, None, afterError.procedure.NoProcedure?))
    else match EndOfOperation(afterError)
      case EopPanics => Panics
      case EopHandled(next, programmed, endAddress) =>
        Handled(next, IrqEffects(errorAddress, programmed, endAddress, next.procedure.NoProcedure?))
  }

  /** What a process keeps while it programs: between 1 and the total of
      halfwords remain, and the address has moved on by 2 for every
      halfword done. */
  predicate ProcessInv(p: FlashProcess)
  {
    IsProgramming(p.procedure) ==>
      && 1 <= p.dataRemaining <= HalfwordCount(p.procedure)
      && p.address >= 2 * (HalfwordCount(p.procedure) - p.dataRemaining)
  }

  lemma InitialProcessInv(t: ProgramType, address: U32, data: U64)
    ensures ProcessInv(InitialProcess(t, address, data))
    ensures ProcessInv(IDLE_PROCESS)
  {
  }

  /** Every interrupt keeps the invariant, and one that panics does so
      only because the address passed the top of the 32-bit range: the
      `data_remaining` decrement and the start-address subtraction never
      go below zero. */
  lemma IrqKeepsInv(p: FlashProcess, wrprterr: bool, pgerr: bool, eop: bool)
    requires ProcessInv(p)
    ensures IrqStep(p, wrprterr, pgerr, eop).Handled? ==> ProcessInv(IrqStep(p, wrprterr, pgerr, eop).process)
    ensures IrqStep(p, wrprterr, pgerr, eop).Panics? <==>
      && eop && !wrprterr && !pgerr && IsProgramming(p.procedure)
      && p.dataRemaining > 1 && p.address + 2 >= U32_LIMIT
  {
  }

  /** An error flag stops the process whatever it was doing: the error
      callback gets the address it was at, the address is reset, the error
      is recorded, nothing more is programmed and the interrupts go off. */
  lemma ErrorAborts(p: FlashProcess, wrprterr: bool, pgerr: bool, eop: bool)
    requires wrprterr || pgerr
    ensures var r := IrqStep(p, wrprterr, pgerr, eop);
      && r.Handled?
      && r.process.procedure == NoProcedure && r.process.address == RESET_ADDRESS
      && r.process.errorCode == Some(if wrprterr then WriteProtection else Programming)
      && r.effects == IrqEffects(Some(p.address), None, None, true)
  {
  }

  /** Without a procedure, or with an erase, an end-of-operation only
      leaves the procedure at `None` and switches the interrupts off. */
  lemma EopOutsideProgramming(p: FlashProcess)
    requires !IsProgramming(p.procedure)
    ensures IrqStep(p, false, false, true) == Handled(p.(procedure := NoProcedure), IrqEffects(None, None, None, true))
  {
  }

  /** The halfwords still to be programmed by `remaining - 1` further
      interrupts from a process at `address` holding `data`. */
  function FollowingHalfwords(address: nat, data: nat, remaining: nat): seq<(nat, nat)>
    decreases remaining
  {
    if remaining <= 1 then []
    else [(address + 2, (data / HALFWORD) % HALFWORD)] + FollowingHalfwords(address + 2, data / HALFWORD, remaining - 1)
  }

  /** The halfwords a whole program operation writes, first one first. */
  function AllHalfwords(address: nat, data: nat, count: nat): seq<(nat, nat)>
  {
    if count == 0 then [] else [(address, data % HALFWORD)] + FollowingHalfwords(address, data, count)
  }

  /** `k` interrupts with only the end-of-operation flag set. */
  datatype Run = Ran(process: FlashProcess, writes: seq<(nat, nat)>, ends: seq<nat>) | RunPanics

  function RunEops(p: FlashProcess, k: nat): Run
    decreases k
  {
    if k == 0 then Ran(p, [], [])
    else match IrqStep(p, false, false, true)
      case Panics => RunPanics
      case Handled(next, e) =>
        match RunEops(next, k - 1)
        case RunPanics => RunPanics
        case Ran(q, writes, ends) =>
          var programmed := if e.programmed.Some? then [(e.programmed.value.0, e.programmed.value.1)] else [];
          var ended := if e.endAddress.Some? then [e.endAddress.value as nat] else [];
          Ran(q, programmed + writes, ended + ends)
  }

  /** From any point of a programming process, the remaining interrupts
      program the following halfwords in order, then end the procedure and
      report the start address. */
  lemma {:induction false} ProgrammingRunsToEnd(p: FlashProcess)
    requires ProcessInv(p) && IsProgramming(p.procedure)
    requires p.address + 2 * (p.dataRemaining - 1) < U32_LIMIT
    ensures var r := RunEops(p, p.dataRemaining);
      && r.Ran?
      && r.process.procedure == NoProcedure && r.process.address == RESET_ADDRESS && r.process.dataRemaining == 0
      && r.writes == FollowingHalfwords(p.address, p.data, p.dataRemaining)
      && r.ends == [p.address - 2 * (HalfwordCount(p.procedure) - p.dataRemaining)]
    decreases p.dataRemaining
  {
    var r := IrqStep(p, false, false, true);
    if p.dataRemaining > 1 {
      assert r.Handled? && r.effects.programmed == Some((p.address + 2, (p.data / HALFWORD) % HALFWORD));
      assert r.effects.endAddress == None;
      ProgrammingRunsToEnd(r.process);
    } else {
      assert r.Handled? && r.effects.programmed == None;
    }
  }

  /** `program_it` followed by its interrupts, when the process is kept:
      the `data` is programmed as 1, 2 or 4 consecutive halfwords from
      `address`, low halfword first, and the end callback gets `address`. */
  lemma ProgramItWritesAllHalfwords(t: ProgramType, address: U32, data: U64)
    requires address + 2 * (HalfwordCount(InitialProcess(t, address, data).procedure) - 1) < U32_LIMIT
    ensures var p := InitialProcess(t, address, data);
      var r := RunEops(p, p.dataRemaining);
      && r.Ran? && r.ends == [address] && r.process.procedure == NoProcedure
      && [(address as nat, Low16(data) as nat)] + r.writes == AllHalfwords(address, data, p.dataRemaining)
  {
    var p := InitialProcess(t, address, data);
    var n := p.dataRemaining;
    InitialProcessInv(t, address, data);
    assert n >= 1 && n == HalfwordCount(p.procedure) && p.address == address && p.data == data;
    ProgrammingRunsToEnd(p);
    assert AllHalfwords(address, data, n) == [(address as nat, Low16(data) as nat)] + FollowingHalfwords(address, data, n);
  }

  /** A 32-bit word goes to `address` and `address + 2` as its low and high
      halves. */
  lemma WordHalves(address: U32, data: U64)
    requires address + 2 < U32_LIMIT && data < U32_LIMIT
    ensures AllHalfwords(address, data, 2) == [(address, data % HALFWORD), (address + 2, data / HALFWORD)]
  {
    assert data / HALFWORD < HALFWORD;
    assert FollowingHalfwords(address + 2, data / HALFWORD, 1) == [];
  }

  /** The flash controller as the handler sees it: the shared process, the
      two interrupt enables and the halfwords written so far. */
  class FlashController {
    var process: FlashProcess
    var eopie: bool
    var errie: bool
    var writes: seq<(nat, nat)>

    constructor ()
      ensures process == IDLE_PROCESS && !eopie && !errie && writes == []
    {
      process := IDLE_PROCESS;
      eopie := false;
      errie := false;
      writes := [];
    }

    /** `program_it(t, address, data)` as written: it builds its process in
        a local, enables the interrupts and programs the first halfword;
        the shared process is left as it was. */
    method ProgramIt(t: ProgramType, address: U32, data: U64) returns (local: FlashProcess)
      modifies this
      ensures local == InitialProcess(t, address, data)
      ensures process == old(process)
      ensures eopie && errie
      ensures writes == old(writes) + [(address as nat, Low16(data) as nat)]
    {
      local := InitialProcess(t, address, data);
      eopie, errie := true, true;
      writes := writes + [(address as nat, Low16(data) as nat)];
    }

    /** `program_it` with the process stored into the shared one, as the
        handler expects. */
    method ProgramItStoring(t: ProgramType, address: U32, data: U64)
      modifies this
      ensures process == InitialProcess(t, address, data)
      ensures eopie && errie
      ensures writes == old(writes) + [(address as nat, Low16(data) as nat)]
    {
      var local := ProgramIt(t, address, data);
      process := local;
    }

    /** `irq_handler` with the status flags read as given. */
    method IrqHandler(wrprterr: bool, pgerr: bool, eop: bool) returns (r: IrqResult)
      modifies this
      ensures r == IrqStep(old(process), wrprterr, pgerr, eop)
      ensures r.Panics? ==> unchanged(this)
      ensures r.Handled? ==>
        && process == r.process
        && writes == old(writes) + (if r.effects.programmed.Some? then [r.effects.programmed.value] else [])
        && (r.effects.interruptsOff ==> !eopie && !errie)
        && (!r.effects.interruptsOff ==> eopie == old(eopie) && errie == old(errie))
    {
      var p := process;
      var errorAddress: Option<U32> := None;
      if wrprterr || pgerr {
        errorAddress := Some(p.address);
        p := Aborted(p, wrprterr);
      }
      var programmed: Option<(U32, U16)> := None;
      var endAddress: Option<U32> := None;
      if eop {
        var e := EndOfOperation(p);
        if e.EopPanics? {
          return Panics;
        }
        p, programmed, endAddress := e.next, e.programmed, e.endAddress;
        if programmed.Some? {
          writes := writes + [programmed.value];
        }
      }
      process := p;
      if p.procedure.NoProcedure? {
        eopie, errie := false, false;
      }
      return Handled(p, IrqEffects(errorAddress, programmed, endAddress, p.procedure.NoProcedure?));
    }
  }

  /** FINDING, as written: a word write on a fresh controller programs only
      its low halfword. The interrupt that follows finds the shared process
      idle, programs nothing, calls no end callback and switches the
      interrupts off. */
  method WordWriteAsWritten(address: U32, data: U64) returns (writes: seq<(nat, nat)>, r: IrqResult)
    ensures writes == [(address as nat, Low16(data) as nat)]
    ensures r == Handled(IDLE_PROCESS, IrqEffects(None, None, None, true))
  {
    var c := new FlashController();
    var _ := c.ProgramIt(Word, address, data);
    r := c.IrqHandler(false, false, true);
    writes := c.writes;
  }

  /** Corrected: with the process stored, a word write programs both
      halfwords and reports its start address at the end. */
  method WordWriteCorrected(address: U32, data: U64) returns (writes: seq<(nat, nat)>, ends: seq<nat>)
    requires address + 2 < U32_LIMIT
    ensures writes == AllHalfwords(address, data, 2)
    ensures ends == [address]
  {
    var c := new FlashController();
    c.ProgramItStoring(Word, address, data);
    var r1 := c.IrqHandler(false, false, true);
    var r2 := c.IrqHandler(false, false, true);
    writes := c.writes;
    ends := if r2.Handled? && r2.effects.endAddress.Some? then [r2.effects.endAddress.value as nat] else [];
    assert FollowingHalfwords(address + 2, data / HALFWORD, 1) == [];
  }
}
