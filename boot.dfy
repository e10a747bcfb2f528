/** Boot bookkeeping and mode selection (src/boot.rs). `BOOT_COUNT` and
    `BOOT_MAGIC` live in `.noinit` RAM and so survive a reset;
    `IS_WARM_BOOT` is an ordinary static, cleared by every reset. */
module Boot {
  import opened Base
  import opened Flash

  const BOOT_MAGIC_VALUE: U32 := 0x31337cde

  /** The three boot statics. */
  datatype BootVars = BootVars(bootCount: Byte, bootMagic: U32, isWarmBoot: bool)

  /** `BOOT_COUNT.wrapping_add(1)`, with 0 replaced by 1. */
  function NextBootCount(count: Byte): (r: Byte)
    ensures r != 0
    ensures count < 255 ==> r == count + 1
    ensures count == 255 ==> r == 1
  {
    var wrapped := (count + 1) % 256;
    if wrapped == 0 then 1 else wrapped
  }

  /** The statics after `check_boot_status`. */
  function CheckedBoot(v: BootVars): BootVars
  {
    BootVars(NextBootCount(v.bootCount), BOOT_MAGIC_VALUE, v.bootMagic == BOOT_MAGIC_VALUE)
  }

  /** What a reset keeps: the `.noinit` statics; `IS_WARM_BOOT` is false. */
  function AfterReset(v: BootVars): BootVars
  {
    v.(isWarmBoot := false)
  }

  /** A boot is warm exactly when the magic was already in place, and the
      magic is in place afterwards whatever it was before. */
  lemma WarmExactlyWhenMagicSurvived(v: BootVars)
    ensures CheckedBoot(v).isWarmBoot <==> v.bootMagic == BOOT_MAGIC_VALUE
    ensures CheckedBoot(v).bootMagic == BOOT_MAGIC_VALUE
    ensures CheckedBoot(v).bootCount != 0
  {
  }

  /** Booting again after a reset is a warm boot, and the count moves on
      by one more (skipping 0). */
  lemma RebootIsWarm(v: BootVars)
    ensures var again := CheckedBoot(AfterReset(CheckedBoot(v)));
      && again.isWarmBoot
      && again.bootCount == NextBootCount(NextBootCount(v.bootCount))
  {
  }

  /** Starting from 0 (the value a power-up is taken to leave), `k`
      checked boots give a count of `k` while `k` stays below 256. */
  lemma {:induction false} CountsBoots(k: nat)
    requires 0 < k < 256
    ensures Boots(BootVars(0, 0, false), k).bootCount == k
  {
    if k > 1 {
      CountsBoots(k - 1);
    }
  }

  /** `k` checked boots, each after a reset. */
  function Boots(v: BootVars, k: nat): BootVars
  {
    if k == 0 then v else CheckedBoot(AfterReset(Boots(v, k - 1)))
  }

  class BootState {
    var bootCount: Byte
    var bootMagic: U32
    var isWarmBoot: bool

    function Vars(): BootVars
      reads this
    {
      BootVars(bootCount, bootMagic, isWarmBoot)
    }

    /** The statics at power-up: whatever the `.noinit` RAM holds, and
        `IS_WARM_BOOT` false. */
    constructor (count: Byte, magic: U32)
      ensures Vars() == BootVars(count, magic, false)
    {
      bootCount := count;
      bootMagic := magic;
      isWarmBoot := false;
    }

    /** `check_boot_status`. */
    method CheckBootStatus()
      modifies this
      ensures Vars() == CheckedBoot(old(Vars()))
    {
      bootCount := (bootCount + 1) % 256;
      if bootCount == 0 {
        bootCount := 1;
      }
      if bootMagic == BOOT_MAGIC_VALUE {
        isWarmBoot := true;
      } else {
        isWarmBoot := false;
        bootMagic := BOOT_MAGIC_VALUE;
      }
    }

    /** `SCB::sys_reset`, as the statics see it. */
    method Reset()
      modifies this
      ensures Vars() == AfterReset(old(Vars()))
    {
      isWarmBoot := false;
    }

    /** `is_warm_boot`. */
    function IsWarmBoot(): (r: bool)
      reads this
      ensures r == Vars().isWarmBoot
    {
      isWarmBoot
    }

    /** `get_boot_count`. */
    function GetBootCount(): (r: Byte)
      reads this
      ensures r == Vars().bootCount
    {
      bootCount
    }
  }

  /** `determine_mode(address)`, with the flash default mode read from the
      cached `data1`; the status LEDs it lights are left out. */
  function DetermineMode(address: Byte, data1: Data1): (m: Mode)
    ensures address == 0 ==> m == Spy
    ensures address != 0 ==> m == DefaultModeOf(data1)
  {
    if address == 0 then Spy else DefaultModeOf(data1)
  }

  /** The mode `toggle_mode` persists. */
  function ToggledMode(m: Mode): Mode
  {
    match m
    case Master => Panel
    case Panel => Master
    case _ => m
  }

  /** Toggling swaps Master and Panel, keeps Spy, and undoes itself. */
  lemma ToggleSwapsMasterAndPanel(m: Mode)
    ensures ToggledMode(ToggledMode(m)) == m
    ensures ToggledMode(m) == m <==> m == Spy
    ensures m != Spy ==> ToggledMode(m) != Spy
  {
  }

  /** `toggle_mode(mode)`: persists the toggled mode and resets the board
      (the button wait and the LED blinking are left out). */
  method ToggleMode(cache: UserBytes, boot: BootState, mode: Mode)
    modifies cache, boot
    ensures DefaultModeOf(cache.data1) == ToggledMode(mode)
    ensures CommModeOf(cache.data1) == CommModeOf(old(cache.data1)) && cache.id == old(cache.id)
    ensures boot.Vars() == AfterReset(old(boot.Vars()))
  {
    SetDefaultModeFromEnum(cache, ToggledMode(mode));
    boot.Reset();
  }

  /** The boot sequence of `main` up to `determine_mode`: check the boot
      status, load the user bytes unless the boot is warm, and pick the
      mode from the board id. */
  method BootSequence(cache: UserBytes, boot: BootState, idRaw: Byte, data1Raw: Byte) returns (m: Mode)
    modifies cache, boot
    ensures boot.Vars() == CheckedBoot(old(boot.Vars()))
    ensures old(boot.bootMagic) == BOOT_MAGIC_VALUE ==> cache.id == old(cache.id) && cache.data1 == old(cache.data1)
    ensures old(boot.bootMagic) != BOOT_MAGIC_VALUE ==>
      cache.id == idRaw && cache.data1 == Sanitized(Data1(data1Raw as bv8))
    ensures m == DetermineMode(cache.id, cache.data1)
  {
    boot.CheckBootStatus();
    cache.InitUserConfiguration(boot.IsWarmBoot(), idRaw, data1Raw);
    m := DetermineMode(cache.GetId(), cache.data1);
  }

  /** A board (not board 0) that has booted once and then has its mode
      toggled comes back up, after the reset, in the toggled mode: the
      second boot is warm, so the cached bytes written by the toggle are
      the ones used, whatever the option bytes read. */
  method ToggleThenReboot(cache: UserBytes, boot: BootState, idRaw: Byte, data1Raw: Byte, mode: Mode)
    returns (m: Mode)
    requires boot.bootMagic == BOOT_MAGIC_VALUE && cache.id != 0
    modifies cache, boot
    ensures m == ToggledMode(mode)
    ensures boot.isWarmBoot
  {
    ToggleMode(cache, boot, mode);
    m := BootSequence(cache, boot, idRaw, data1Raw);
  }
}
