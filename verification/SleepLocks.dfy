/** The sleep manager (sleepmgr.h) and the locks the USB device driver holds in it (usb_device.c). */
module SleepLocks {

  /** The sleep modes, shallowest first. */
  const ACTIVE: nat := 0
  const IDLE: nat := 1
  const PDOWN: nat := 5
  const NR_OF_MODES: nat := 6
  const MAX_LOCKS: nat := 0xFF

  type Mode = m: nat | m < NR_OF_MODES

  type Counts = s: seq<nat> | |s| == NR_OF_MODES witness [0, 0, 0, 0, 0, 0]

  /** The lock counts, whether an endless loop has been entered, udd_b_idle and USBC_SLEEP_MODE_USB_SUSPEND;
      for the specification the locks of the other clients, those the driver holds for USB idle and
      suspend, and whether it is between udd_enable and udd_disable. */
  datatype Power = Power(locks: Counts, hung: bool, bIdle: bool, suspend: Mode,
                         others: Counts, idleHeld: int, suspendHeld: int, on: bool)

  // ----- the sleep manager

  /** sleepmgr_lock_mode. */
  function Locked(p: Power, m: Mode): Power {
    if p.locks[m] >= MAX_LOCKS then p.(hung := true) else p.(locks := p.locks[m := p.locks[m] + 1])
  }

  /** sleepmgr_unlock_mode. */
  function Unlocked(p: Power, m: Mode): Power {
    if p.locks[m] == 0 then p.(hung := true) else p.(locks := p.locks[m := p.locks[m] - 1])
  }

  /** After sleepmgr_init. */
  function Started(suspend: Mode): Power {
    Power([0, 0, 0, 0, 0, 1], false, false, suspend, [0, 0, 0, 0, 0, 0], 0, 0, false)
  }

  /** The shallowest locked mode from m on, or NR_OF_MODES. */
  function FirstLocked(locks: Counts, m: nat): (r: nat)
    requires m <= NR_OF_MODES
    ensures m <= r <= NR_OF_MODES
    ensures forall k :: m <= k < r ==> locks[k] == 0
    ensures r < NR_OF_MODES ==> locks[r] != 0
    decreases NR_OF_MODES - m
  {
    if m == NR_OF_MODES || locks[m] != 0 then m else FirstLocked(locks, m + 1)
  }

  // ----- the driver

  /** udd_sleep_mode. */
  function InMode(p: Power, idle: bool): Power {
    var q := if !idle && p.bIdle then Unlocked(p, IDLE).(idleHeld := p.idleHeld - 1)
             else if idle && !p.bIdle then Locked(p, IDLE).(idleHeld := p.idleHeld + 1)
             else p;
    q.(bIdle := idle)
  }

  /** udd_enable, with udd_attach. */
  function Enabled(p: Power): Power {
    var q := Locked(p.(bIdle := false), p.suspend).(suspendHeld := p.suspendHeld + 1, on := true);
    InMode(q, true)
  }

  /** udd_disable. */
  function Disabled(p: Power): Power {
    var q := InMode(p, false);
    Unlocked(q, p.suspend).(suspendHeld := q.suspendHeld - 1, on := false)
  }

  datatype Event =
    | EvEnable | EvDisable | EvAttach | EvSuspend | EvResume | EvRemoteWakeup
    | EvOtherLock(m: Mode) | EvOtherUnlock(m: Mode)

  /** udd_enable and udd_disable alternate, the bus is watched in between, and the other clients
      release only what they hold and leave room for the three locks of this model. */
  predicate Occurs(p: Power, ev: Event) {
    match ev
    case EvEnable => !p.on
    case EvOtherLock(m) => p.others[m] < MAX_LOCKS - 3
    case EvOtherUnlock(m) => p.others[m] > 0
    case _ => p.on
  }

  function Step(p: Power, ev: Event): Power {
    match ev
    case EvEnable => Enabled(p)
    case EvDisable => Disabled(p)
    case EvAttach => InMode(p, true)
    case EvSuspend => InMode(p, false)
    case EvResume => InMode(p, true)
    case EvRemoteWakeup => if p.bIdle then p else InMode(p, true)
    case EvOtherLock(m) => Locked(p, m).(others := p.others[m := p.others[m] + 1])
    case EvOtherUnlock(m) => Unlocked(p, m).(others := p.others[m := if p.others[m] > 0 then p.others[m] - 1 else 0])
  }

  // ----- the balance

  /** The count a mode must have: the other clients, the lock of sleepmgr_init and those of the driver. */
  function Expected(p: Power, m: Mode): int {
    p.others[m] + (if m == PDOWN then 1 else 0) + (if m == IDLE then p.idleHeld else 0)
      + (if m == p.suspend then p.suspendHeld else 0)
  }

  /** Every lock is accounted for, and no endless loop has been entered. */
  ghost predicate Counted(p: Power) {
    && !p.hung
    && forall m: Mode :: p.others[m] <= MAX_LOCKS - 3 && p.locks[m] == Expected(p, m)
  }

  /** The driver holds one lock for suspend while it is on, and one for idle while udd_b_idle. */
  predicate Balanced(p: Power) {
    && p.idleHeld == (if p.bIdle then 1 else 0)
    && p.suspendHeld == (if p.on then 1 else 0)
    && (p.bIdle ==> p.on)
  }

  lemma SleepModeKeeps(p: Power, idle: bool)
    requires Counted(p) && Balanced(p) && p.on
    ensures Counted(InMode(p, idle)) && Balanced(InMode(p, idle)) && InMode(p, idle).on
  {
    assert Expected(p, IDLE) == p.locks[IDLE] && Expected(p, p.suspend) == p.locks[p.suspend];
    assert forall m: Mode :: m != IDLE ==> Expected(InMode(p, idle), m) == Expected(p, m);
  }

  lemma EnableKeeps(p: Power)
    requires Counted(p) && Balanced(p) && !p.on
    ensures Counted(Enabled(p)) && Balanced(Enabled(p))
  {
    assert Expected(p, IDLE) == p.locks[IDLE] && Expected(p, p.suspend) == p.locks[p.suspend];
    var q := Locked(p.(bIdle := false), p.suspend).(suspendHeld := p.suspendHeld + 1, on := true);
    assert forall m: Mode :: m != p.suspend ==> Expected(q, m) == Expected(p, m);
    assert Counted(q);
    SleepModeKeeps(q, true);
  }

  lemma DisableKeeps(p: Power)
    requires Counted(p) && Balanced(p) && p.on
    ensures Counted(Disabled(p)) && Balanced(Disabled(p))
  {
    SleepModeKeeps(p, false);
    var q := InMode(p, false);
    assert Expected(q, q.suspend) == q.locks[q.suspend];
    assert forall m: Mode :: m != p.suspend ==> Expected(Disabled(p), m) == Expected(q, m);
  }

  lemma OtherKeeps(p: Power, ev: Event)
    requires Counted(p) && Balanced(p) && Occurs(p, ev) && (ev.EvOtherLock? || ev.EvOtherUnlock?)
    ensures Counted(Step(p, ev)) && Balanced(Step(p, ev))
  {
    assert Expected(p, ev.m) == p.locks[ev.m];
    assert forall m: Mode :: m != ev.m ==> Expected(Step(p, ev), m) == Expected(p, m);
  }

  lemma StepKeeps(p: Power, ev: Event)
    requires Counted(p) && Balanced(p) && Occurs(p, ev)
    ensures Counted(Step(p, ev)) && Balanced(Step(p, ev)) && Step(p, ev).suspend == p.suspend
  {
    match ev
    case EvEnable => EnableKeeps(p);
    case EvDisable => DisableKeeps(p);
    case EvAttach => SleepModeKeeps(p, true);
    case EvSuspend => SleepModeKeeps(p, false);
    case EvResume => SleepModeKeeps(p, true);
    case EvRemoteWakeup => SleepModeKeeps(p, true);
    case EvOtherLock(_) => OtherKeeps(p, ev);
    case EvOtherUnlock(_) => OtherKeeps(p, ev);
  }

  ghost predicate Possible(p: Power, evs: seq<Event>)
    decreases |evs|
  {
    |evs| == 0 || (Occurs(p, evs[0]) && Possible(Step(p, evs[0]), evs[1..]))
  }

  function Run(p: Power, evs: seq<Event>): Power
    decreases |evs|
  {
    if |evs| == 0 then p else Run(Step(p, evs[0]), evs[1..])
  }

  lemma StartedKeeps(suspend: Mode)
    ensures Counted(Started(suspend)) && Balanced(Started(suspend))
  {
    assert forall m: Mode :: m != PDOWN ==> Expected(Started(suspend), m) == 0;
  }

  /** Over every run: the counts are the sum of what is held, no lock or unlock hangs, and the driver
      holds its idle lock exactly while udd_b_idle. */
  lemma {:induction false} RunKeepsBalance(p: Power, evs: seq<Event>)
    requires Counted(p) && Balanced(p) && Possible(p, evs)
    ensures Counted(Run(p, evs)) && Balanced(Run(p, evs)) && Run(p, evs).suspend == p.suspend
    decreases |evs|
  {
    if |evs| > 0 {
      StepKeeps(p, evs[0]);
      RunKeepsBalance(Step(p, evs[0]), evs[1..]);
    }
  }

  /** The mode the device sleeps in: the scan ends at a mode, which is no deeper than what the driver
      needs, and exactly that if nobody else needs more. */
  lemma SleepDepth(p: Power)
    requires Counted(p) && Balanced(p)
    ensures var mode := FirstLocked(p.locks, 0);
      && mode < NR_OF_MODES
      && (p.bIdle ==> mode <= IDLE)
      && (p.on ==> mode <= p.suspend)
      && (p.others == [0, 0, 0, 0, 0, 0] ==>
            mode == if p.bIdle && IDLE < p.suspend then IDLE else if p.on then p.suspend else PDOWN)
  {
    assert Expected(p, PDOWN) == p.locks[PDOWN];
    assert Expected(p, IDLE) == p.locks[IDLE];
    assert Expected(p, p.suspend) == p.locks[p.suspend];
    var mode := FirstLocked(p.locks, 0);
    assert Expected(p, mode) == p.locks[mode];
  }

  /** A lock counts one more or hangs at 255, an unlock one less or hangs at 0, and other modes keep theirs. */
  lemma LocksCount(p: Power, m: Mode)
    ensures Locked(p, m) == if p.locks[m] < 255 then p.(locks := Locked(p, m).locks) else p.(hung := true)
    ensures Unlocked(p, m) == if 0 < p.locks[m] then p.(locks := Unlocked(p, m).locks) else p.(hung := true)
    ensures forall k: Mode :: k != m ==> Locked(p, m).locks[k] == p.locks[k] == Unlocked(p, m).locks[k]
    ensures p.locks[m] < 255 ==> Locked(p, m).locks[m] == p.locks[m] + 1
    ensures 0 < p.locks[m] ==> Unlocked(p, m).locks[m] == p.locks[m] - 1
  {}

  /** What the bus last asked of the driver: to be on, and to be awake. */
  datatype Wanted = Wanted(on: bool, awake: bool)

  function Want(w: Wanted, ev: Event): Wanted {
    match ev
    case EvEnable => Wanted(true, true)
    case EvDisable => Wanted(false, false)
    case EvAttach => w.(awake := true)
    case EvSuspend => w.(awake := false)
    case EvResume => w.(awake := true)
    case EvRemoteWakeup => w.(awake := true)
    case _ => w
  }

  function WantAll(w: Wanted, evs: seq<Event>): Wanted
    decreases |evs|
  {
    if |evs| == 0 then w else WantAll(Want(w, evs[0]), evs[1..])
  }

  lemma StepWants(p: Power, ev: Event)
    ensures Wanted(Step(p, ev).on, Step(p, ev).bIdle) == Want(Wanted(p.on, p.bIdle), ev)
  {}

  lemma {:induction false} RunWants(p: Power, evs: seq<Event>)
    ensures Wanted(Run(p, evs).on, Run(p, evs).bIdle) == WantAll(Wanted(p.on, p.bIdle), evs)
    decreases |evs|
  {
    hide Step, Want;
    if |evs| > 0 {
      StepWants(p, evs[0]);
      RunWants(Step(p, evs[0]), evs[1..]);
    }
  }

  /** After any run from the start in which no other client holds a lock, the device sleeps in IDLE while
      it is awake, in the suspend mode once the bus is suspended, and in the deepest mode while the driver
      is off. */
  lemma SleepsAsWanted(suspend: Mode, evs: seq<Event>)
    requires Possible(Started(suspend), evs) && IDLE < suspend
    ensures var p := Run(Started(suspend), evs); var w := WantAll(Wanted(false, false), evs);
      p.others == [0, 0, 0, 0, 0, 0] ==>
        FirstLocked(p.locks, 0) == if !w.on then PDOWN else if w.awake then IDLE else suspend
  {
    StartedKeeps(suspend);
    RunKeepsBalance(Started(suspend), evs);
    RunWants(Started(suspend), evs);
    SleepDepth(Run(Started(suspend), evs));
  }

  /** udd_enable keeps the balance exactly if the driver is off: it forgets that udd_b_idle stands
      for a lock. */
  lemma EnableBalancesIff(p: Power)
    requires Balanced(p)
    ensures Balanced(Enabled(p)) <==> !p.on
  {}

  /** Enabled twice and disabled once, the driver leaves a lock behind that nobody releases: the device
      never sleeps deeper than idle again. */
  lemma DoubleEnableLeaks()
    ensures var p := Disabled(Enabled(Enabled(Started(PDOWN))));
      !p.on && !p.bIdle && p.idleHeld == 1 && FirstLocked(p.locks, 0) == IDLE
  {
    var p := Disabled(Enabled(Enabled(Started(PDOWN))));
    assert p.locks == [0, 1, 0, 0, 0, 2];
  }

  // ----- in place

  class SleepManager {
    const locks: array<nat>

    ghost predicate Valid() { locks.Length == NR_OF_MODES }

    /** sleepmgr_init. */
    constructor ()
      ensures Valid() && locks[..] == [0, 0, 0, 0, 0, 1] && fresh(locks)
    {
      locks := new nat[NR_OF_MODES];
      new;
      for i := 0 to NR_OF_MODES - 1
        invariant forall k :: 0 <= k < i ==> locks[k] == 0
      {
        locks[i] := 0;
      }
      locks[NR_OF_MODES - 1] := 1;
    }

    /** sleepmgr_lock_mode; it does not return if the count is at its limit. */
    method LockMode(m: Mode) returns (hangs: bool)
      requires Valid()
      modifies locks
      ensures hangs <==> old(locks[m]) >= MAX_LOCKS
      ensures locks[..] == if hangs then old(locks[..]) else old(locks[..])[m := old(locks[m]) + 1]
    {
      if locks[m] >= MAX_LOCKS {
        return true;
      }
      locks[m] := locks[m] + 1;
      hangs := false;
    }

    /** sleepmgr_unlock_mode; it does not return if nobody holds the lock. */
    method UnlockMode(m: Mode) returns (hangs: bool)
      requires Valid()
      modifies locks
      ensures hangs <==> old(locks[m]) == 0
      ensures locks[..] == if hangs then old(locks[..]) else old(locks[..])[m := old(locks[m]) - 1]
    {
      if locks[m] == 0 {
        return true;
      }
      locks[m] := locks[m] - 1;
      hangs := false;
    }

    /** sleepmgr_get_sleep_mode; the scan leaves the table if nothing is locked. */
    method GetSleepMode() returns (mode: nat)
      requires Valid()
      ensures mode == FirstLocked(locks[..], 0)
    {
      mode := ACTIVE;
      while mode < NR_OF_MODES && locks[mode] == 0
        invariant mode <= NR_OF_MODES && FirstLocked(locks[..], 0) == FirstLocked(locks[..], mode)
      {
        mode := mode + 1;
      }
    }
  }

  /** The power management of the driver. */
  class UsbPower {
    const sleepmgr: SleepManager
    const suspend: Mode
    var bIdle: bool
    var hung: bool
    ghost var others: Counts
    ghost var idleHeld: int
    ghost var suspendHeld: int
    ghost var on: bool

    ghost predicate Ready()
      reads this
    {
      sleepmgr.Valid()
    }

    /** Every lock is accounted for and the driver holds the ones it should. */
    ghost predicate Valid()
      reads this, sleepmgr.locks
    {
      Ready() && Counted(View()) && Balanced(View())
    }

    /** The mode the device would sleep in. */
    ghost function Depth(): nat
      requires Ready()
      reads this, sleepmgr.locks
    {
      FirstLocked(View().locks, 0)
    }

    ghost function View(): Power
      requires Ready()
      reads this, sleepmgr.locks
    {
      Power(sleepmgr.locks[..], hung, bIdle, suspend, others, idleHeld, suspendHeld, on)
    }

    constructor (suspend: Mode)
      ensures Valid() && View() == Started(suspend) && fresh(sleepmgr.locks)
    {
      sleepmgr := new SleepManager();
      this.suspend, bIdle, hung := suspend, false, false;
      others, idleHeld, suspendHeld, on := [0, 0, 0, 0, 0, 0], 0, 0, false;
      new;
      StartedKeeps(suspend);
    }

    method Lock(m: Mode)
      requires Ready()
      modifies this`hung, sleepmgr.locks
      ensures View() == Locked(old(View()), m)
    {
      var hangs := sleepmgr.LockMode(m);
      hung := hung || hangs;
    }

    method Unlock(m: Mode)
      requires Ready()
      modifies this`hung, sleepmgr.locks
      ensures View() == Unlocked(old(View()), m)
    {
      var hangs := sleepmgr.UnlockMode(m);
      hung := hung || hangs;
    }

    /** udd_sleep_mode: while the driver is on, the balance is kept and the device sleeps no deeper than
        idle if that is asked for. */
    method SleepMode(idle: bool)
      requires Ready()
      modifies this, sleepmgr.locks
      ensures View() == InMode(old(View()), idle)
      ensures old(Valid()) && on ==> Valid() && (idle ==> Depth() <= IDLE)
    {
      ghost var p := View();
      if Counted(p) && Balanced(p) && on {
        SleepModeKeeps(p, idle);
        SleepDepth(InMode(p, idle));
      }
      if !idle && bIdle {
        Unlock(IDLE);
        idleHeld := idleHeld - 1;
      }
      if idle && !bIdle {
        Lock(IDLE);
        idleHeld := idleHeld + 1;
      }
      bIdle := idle;
    }

    /** The end of udd_enable, with udd_attach: the balance is kept if the driver was off. */
    method Enable()
      requires Ready()
      modifies this, sleepmgr.locks
      ensures View() == Enabled(old(View()))
      ensures old(Valid() && !on) ==> Valid() && on && Depth() <= IDLE
    {
      hide Counted, Balanced, FirstLocked, Locked;
      ghost var p := View();
      if Counted(p) && Balanced(p) && !on {
        EnableKeeps(p);
        SleepDepth(Enabled(p));
      }
      bIdle := false;
      Lock(suspend);
      suspendHeld, on := suspendHeld + 1, true;
      SleepMode(true);
    }

    /** The end of udd_disable: the driver holds no lock any more. */
    method Disable()
      requires Ready()
      modifies this, sleepmgr.locks
      ensures View() == Disabled(old(View()))
      ensures old(Valid() && on) ==> Valid() && !on && idleHeld == 0 == suspendHeld
    {
      ghost var p := View();
      if Counted(p) && Balanced(p) && on {
        DisableKeeps(p);
      }
      SleepMode(false);
      Unlock(suspend);
      suspendHeld, on := suspendHeld - 1, false;
    }

    /** udd_send_remotewakeup. */
    method SendRemoteWakeup()
      requires Ready()
      modifies this, sleepmgr.locks
      ensures View() == Step(old(View()), EvRemoteWakeup)
      ensures old(Valid()) && on ==> Valid() && Depth() <= IDLE
    {
      ghost var p := View();
      if Counted(p) && Balanced(p) && on {
        StepKeeps(p, EvRemoteWakeup);
        SleepDepth(Step(p, EvRemoteWakeup));
      }
      if !bIdle {
        SleepMode(true);
      }
    }
  }
}
