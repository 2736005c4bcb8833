/** Signal blocking for platforms that have only signal() with its System V semantics,
    and its refinement of the machine that POSIX describes: a mask, the pending signals
    and the disposition of every signal. */
module SignalMask {
  import opened Common

  const NSIG := 32

  type Signal = sig: int | 0 <= sig < NSIG

  datatype Handler = SIG_DFL | SIG_IGN | SIG_ERR | BlockedHandler | User(id: int)

  /** A sigset_t, by its bits. */
  type SigSet = bits: seq<bool> | |bits| == NSIG witness seq(NSIG, _ => false)

  datatype How = SIG_BLOCK | SIG_SETMASK | SIG_UNBLOCK | OtherHow(code: int)

  /** What happened when a signal got through: the action that was taken. */
  datatype Event = Acted(sig: Signal, action: Handler)

  function Union(a: SigSet, b: SigSet): SigSet { seq(NSIG, k requires 0 <= k < NSIG => a[k] || b[k]) }
  function Minus(a: SigSet, b: SigSet): SigSet { seq(NSIG, k requires 0 <= k < NSIG => a[k] && !b[k]) }

  // ------------------------------------------------------------------
  // The machine of the specification

  /** The blocked signals, those that wait, and what each signal is to do; `log` records
      what signals did. */
  datatype Machine = Machine(mask: SigSet, pending: SigSet, disp: seq<Handler>, log: seq<Event>)

  /** A signal that gets through; the handler is uninstalled before it runs. */
  function Act(m: Machine, sig: Signal): (n: Machine)
    requires |m.disp| == NSIG
    ensures |n.disp| == NSIG
  {
    m.(log := m.log + [Acted(sig, m.disp[sig])],
       disp := if m.disp[sig].User? then m.disp[sig := SIG_DFL] else m.disp)
  }

  /** A signal arrives. */
  function Arrive(m: Machine, sig: Signal): (n: Machine)
    requires |m.disp| == NSIG
    ensures |n.disp| == NSIG
  {
    if m.mask[sig] then m.(pending := m.pending[sig := true]) else Act(m, sig)
  }

  function NewMask(mask: SigSet, how: How, s: SigSet): SigSet {
    match how
    case SIG_BLOCK => Union(mask, s)
    case SIG_SETMASK => s
    case SIG_UNBLOCK => Minus(mask, s)
    case OtherHow(_) => mask
  }

  /** The signals of `s` from k on get through, in order. */
  function ActAll(m: Machine, s: SigSet, k: nat): (n: Machine)
    requires |m.disp| == NSIG && k <= NSIG
    ensures |n.disp| == NSIG
    decreases NSIG - k
  {
    if k == NSIG then m else ActAll(if s[k] then Act(m, k) else m, s, k + 1)
  }

  /** The signals of `s` that a program can catch, and so block. */
  function Blockable(s: SigSet, catchable: SigSet): SigSet {
    seq(NSIG, k requires 0 <= k < NSIG => s[k] && catchable[k])
  }

  function Pending(m: Machine, s: SigSet): SigSet {
    seq(NSIG, k requires 0 <= k < NSIG => s[k] && m.pending[k])
  }

  /** The mask changes; what was pending and is no longer blocked gets through once. */
  function ChangeMask(m: Machine, how: How, s: SigSet, catchable: SigSet): (n: Machine)
    requires |m.disp| == NSIG
    ensures |n.disp| == NSIG
  {
    var wanted := NewMask(m.mask, how, s);
    var unblock := Minus(m.mask, wanted);
    var block := Blockable(Minus(wanted, m.mask), catchable);
    ActAll(m.(mask := Minus(Union(m.mask, block), unblock), pending := Minus(m.pending, unblock)),
           Pending(m, unblock), 0)
  }

  predicate Settable(sig: int, catchable: SigSet) {
    0 <= sig < NSIG && catchable[sig]
  }

  /** The application sets what a signal is to do. */
  function SetAction(m: Machine, sig: int, h: Handler, catchable: SigSet): (n: Machine)
    requires |m.disp| == NSIG
    ensures |n.disp| == NSIG
  {
    if Settable(sig, catchable) && h != SIG_ERR then m.(disp := m.disp[sig := h]) else m
  }

  // ------------------------------------------------------------------
  // The emulation

  /** What each signal is to do: kept aside while it is blocked. */
  function Dispositions(mask: SigSet, kept: seq<Handler>, installed: seq<Handler>): seq<Handler>
    requires |kept| == |installed| == NSIG
  {
    seq(NSIG, k requires 0 <= k < NSIG => if mask[k] then kept[k] else installed[k])
  }

  class Signals {
    /** blocked_set */
    var blockedSet: SigSet
    /** pending_array */
    var pendingArray: array<bool>
    /** old_handlers; only the elements of blocked signals are relevant. */
    var oldHandlers: array<Handler>
    /** The system's own table, which signal() reads and writes. */
    var installed: array<Handler>
    /** The signals for which signal() succeeds. */
    const catchable: SigSet
    /** The uncatchable signals, or -1 on a platform without them. */
    const SIGKILL: int
    const SIGSTOP: int
    /** What signals did so far. */
    var log: seq<Event>

    constructor (catchable: SigSet, sigkill: int, sigstop: int)
      requires !Settable(sigkill, catchable) && !Settable(sigstop, catchable)
      ensures Valid() && fresh(pendingArray) && fresh(oldHandlers) && fresh(installed)
      ensures Abstract() == Machine(seq(NSIG, _ => false), seq(NSIG, _ => false), seq(NSIG, _ => SIG_DFL), [])
    {
      this.catchable, this.SIGKILL, this.SIGSTOP := catchable, sigkill, sigstop;
      blockedSet := seq(NSIG, _ => false);
      pendingArray := new bool[NSIG](_ => false);
      oldHandlers := new Handler[NSIG](_ => SIG_DFL);
      installed := new Handler[NSIG](_ => SIG_DFL);
      log := [];
      new;
      assert pendingArray[..] == seq(NSIG, _ => false);
      assert Abstract().disp == seq(NSIG, _ => SIG_DFL);
    }

    ghost predicate Separate()
      reads this
    {
      && pendingArray.Length == oldHandlers.Length == installed.Length == NSIG
      && oldHandlers != installed
      && !Settable(SIGKILL, catchable) && !Settable(SIGSTOP, catchable)
    }

    /** A signal is blocked just when blocked_handler is installed for it; only blocked
        signals are pending; and what is kept for a blocked signal can be reinstalled. */
    ghost predicate Valid()
      reads this, pendingArray, oldHandlers, installed
    {
      && Separate()
      && (forall sig :: 0 <= sig < NSIG ==> (blockedSet[sig] <==> installed[sig] == BlockedHandler))
      && (forall sig :: 0 <= sig < NSIG && pendingArray[sig] ==> blockedSet[sig])
      && (forall sig :: 0 <= sig < NSIG && blockedSet[sig] ==> catchable[sig])
      && (forall sig :: 0 <= sig < NSIG && blockedSet[sig] ==>
          oldHandlers[sig] != SIG_ERR && oldHandlers[sig] != BlockedHandler)
      && (forall sig :: 0 <= sig < NSIG ==> installed[sig] != SIG_ERR)
    }

    /** The machine that this state stands for. */
    ghost function Abstract(): Machine
      requires Separate()
      reads this, pendingArray, oldHandlers, installed
    {
      Machine(blockedSet, pendingArray[..], Dispositions(blockedSet, oldHandlers[..], installed[..]), log)
    }

    /** The system's signal(): an error leaves its table as it is. */
    method RawSignal(sig: int, h: Handler) returns (old_: Handler)
      requires Separate()
      modifies installed
      ensures Settable(sig, catchable) && h != SIG_ERR ==>
        old_ == old(installed[sig]) && installed[..] == old(installed[..])[sig := h]
      ensures !(Settable(sig, catchable) && h != SIG_ERR) ==> old_ == SIG_ERR && installed[..] == old(installed[..])
    {
      if 0 <= sig < NSIG && catchable[sig] && h != SIG_ERR {
        old_ := installed[sig];
        installed[sig] := h;
      } else {
        old_ := SIG_ERR;
      }
    }

    /** blocked_handler */
    method RunBlockedHandler(sig: Signal)
      requires Separate() && catchable[sig]
      modifies installed, pendingArray
      ensures installed[..] == old(installed[..])[sig := BlockedHandler]
      ensures pendingArray[..] == old(pendingArray[..])[sig := true]
    {
      var _ := RawSignal(sig, BlockedHandler);
      pendingArray[sig] := true;
    }

    /** The system delivers a signal: a handler is uninstalled and then invoked. */
    method Deliver(sig: Signal)
      requires Valid()
      modifies this`log, installed, pendingArray
      ensures Valid() && Abstract() == Arrive(old(Abstract()), sig)
    {
      var h := installed[sig];
      if h == BlockedHandler {
        installed[sig] := SIG_DFL;
        RunBlockedHandler(sig);
        assert installed[..] == old(installed[..]);
      } else {
        if h.User? { installed[sig] := SIG_DFL; }
        log := log + [Acted(sig, h)];
        assert Abstract().disp == if h.User? then old(Abstract().disp)[sig := SIG_DFL] else old(Abstract().disp);
      }
    }

    /** One turn of the blocking loop of sigprocmask. */
    method BlockOne(sig: Signal)
      requires Valid() && !blockedSet[sig]
      modifies this`blockedSet, pendingArray, oldHandlers, installed
      ensures Valid()
      ensures Abstract() == if catchable[sig] then old(Abstract()).(mask := old(blockedSet)[sig := true])
              else old(Abstract())
    {
      pendingArray[sig] := false;
      oldHandlers[sig] := RawSignal(sig, BlockedHandler);
      if oldHandlers[sig] != SIG_ERR {
        blockedSet := blockedSet[sig := true];
      }
      assert pendingArray[..] == old(pendingArray[..]);
      assert Abstract().disp == old(Abstract().disp);
    }

    /** One turn of the unblocking loop; its call of abort is not reached. */
    method UnblockOne(sig: Signal) returns (received: bool)
      requires Valid() && blockedSet[sig]
      modifies this`blockedSet, pendingArray, installed
      ensures Valid() && received == old(pendingArray[sig])
      ensures Abstract() == old(Abstract()).(mask := old(blockedSet)[sig := false],
              pending := old(pendingArray[..])[sig := false])
    {
      var previous := RawSignal(sig, oldHandlers[sig]);
      if previous != BlockedHandler { assert false; }
      received := pendingArray[sig];
      blockedSet := blockedSet[sig := false];
      pendingArray[sig] := false;
      assert Abstract().disp == old(Abstract().disp);
    }

    /** The blocking loop. */
    method BlockSignals(toBlock: SigSet)
      requires Valid() && forall k :: 0 <= k < NSIG && toBlock[k] ==> !blockedSet[k]
      modifies this`blockedSet, pendingArray, oldHandlers, installed
      ensures Valid()
      ensures Abstract() == old(Abstract()).(mask := Union(old(blockedSet), Blockable(toBlock, catchable)))
    {
      var sig := 0;
      while sig < NSIG
        invariant 0 <= sig <= NSIG && Valid()
        invariant pendingArray == old(pendingArray) && oldHandlers == old(oldHandlers) && installed == old(installed)
        invariant Abstract() == old(Abstract()).(mask := blockedSet)
        invariant forall k :: 0 <= k < sig ==> blockedSet[k] == (old(blockedSet)[k] || (toBlock[k] && catchable[k]))
        invariant forall k :: sig <= k < NSIG ==> blockedSet[k] == old(blockedSet)[k]
      {
        if toBlock[sig] { BlockOne(sig); }
        sig := sig + 1;
      }
      assert blockedSet == Union(old(blockedSet), Blockable(toBlock, catchable));
    }

    /** The unblocking loop. */
    method UnblockSignals(toUnblock: SigSet) returns (received: SigSet)
      requires Valid() && forall k :: 0 <= k < NSIG && toUnblock[k] ==> blockedSet[k]
      modifies this`blockedSet, pendingArray, installed
      ensures Valid() && received == Pending(old(Abstract()), toUnblock)
      ensures Abstract() == old(Abstract()).(mask := Minus(old(blockedSet), toUnblock),
                                             pending := Minus(old(pendingArray[..]), toUnblock))
    {
      received := seq(NSIG, _ => false);
      var sig := 0;
      while sig < NSIG
        invariant 0 <= sig <= NSIG && Valid()
        invariant Abstract() == old(Abstract()).(mask := blockedSet, pending := pendingArray[..])
        invariant forall k :: 0 <= k < sig ==> blockedSet[k] == (old(blockedSet)[k] && !toUnblock[k])
        invariant forall k :: 0 <= k < sig ==> pendingArray[k] == (old(pendingArray[k]) && !toUnblock[k])
        invariant forall k :: sig <= k < NSIG ==>
                  blockedSet[k] == old(blockedSet)[k] && pendingArray[k] == old(pendingArray[k])
        invariant forall k :: 0 <= k < NSIG ==> received[k] == (k < sig && toUnblock[k] && old(pendingArray[k]))
      {
        if toUnblock[sig] {
          var r := UnblockOne(sig);
          received := received[sig := r];
        }
        sig := sig + 1;
      }
      assert blockedSet == Minus(old(blockedSet), toUnblock);
      assert pendingArray[..] == Minus(old(pendingArray[..]), toUnblock);
      assert received == Pending(old(Abstract()), toUnblock);
    }

    /** The raising loop. */
    method RaiseSignals(received: SigSet)
      requires Valid() && forall k :: 0 <= k < NSIG && received[k] ==> !blockedSet[k]
      modifies this`log, pendingArray, installed
      ensures Valid() && Abstract() == ActAll(old(Abstract()), received, 0)
    {
      var sig := 0;
      while sig < NSIG
        invariant 0 <= sig <= NSIG && Valid()
        invariant ActAll(Abstract(), received, sig) == ActAll(old(Abstract()), received, 0)
      {
        if received[sig] { Deliver(sig); }
        sig := sig + 1;
      }
    }

    /** sigprocmask; `s` is None for a null pointer. */
    method SigProcMask(how: How, s: Option<SigSet>) returns (ret: int, oldSet: SigSet)
      requires Valid()
      modifies this, pendingArray, oldHandlers, installed
      ensures pendingArray == old(pendingArray) && oldHandlers == old(oldHandlers) && installed == old(installed)
      ensures Valid() && oldSet == old(Abstract()).mask
      ensures ret == if s.Some? && how.OtherHow? then -1 else 0
      ensures Abstract() == if ret == 0 && s.Some? then ChangeMask(old(Abstract()), how, s.value, catchable)
              else old(Abstract())
    {
      oldSet := blockedSet;
      if s.Some? {
        var newBlockedSet;
        match how {
          case SIG_BLOCK => newBlockedSet := Union(blockedSet, s.value);
          case SIG_SETMASK => newBlockedSet := s.value;
          case SIG_UNBLOCK => newBlockedSet := Minus(blockedSet, s.value);
          case OtherHow(_) => return -1, oldSet;
        }
        var toUnblock := Minus(blockedSet, newBlockedSet);
        var toBlock := Minus(newBlockedSet, blockedSet);
        BlockSignals(toBlock);
        assert Pending(old(Abstract()), toUnblock) == Pending(Abstract(), toUnblock);
        var received := UnblockSignals(toUnblock);
        RaiseSignals(received);
      }
      return 0, oldSet;
    }

    /** sigpending */
    method SigPending() returns (s: SigSet)
      requires Valid()
      ensures s == Abstract().pending
    {
      s := seq(NSIG, _ => false);
      var sig := 0;
      while sig < NSIG
        invariant 0 <= sig <= NSIG
        invariant forall k :: 0 <= k < NSIG ==> s[k] == (k < sig && pendingArray[k])
      {
        if pendingArray[sig] { s := s[sig := true]; }
        sig := sig + 1;
      }
      assert s == pendingArray[..];
    }

    /** rpl_signal: it sees and sets the application's own handlers, blocked or not. */
    method RplSignal(sig: int, h: Handler) returns (result: Handler)
      requires Valid() && h != BlockedHandler
      modifies oldHandlers, installed
      ensures Valid() && Abstract() == SetAction(old(Abstract()), sig, h, catchable)
      ensures result == if Settable(sig, catchable) && h != SIG_ERR then old(Abstract()).disp[sig] else SIG_ERR
    {
      if 0 <= sig < NSIG && sig != SIGKILL && sig != SIGSTOP && h != SIG_ERR {
        if blockedSet[sig] {
          result := oldHandlers[sig];
          oldHandlers[sig] := h;
        } else {
          result := RawSignal(sig, h);
        }
      } else {
        result := SIG_ERR;
      }
      assert Abstract().disp == SetAction(old(Abstract()), sig, h, catchable).disp;
    }

    method Perform(step: Step)
      requires Valid() && !(step.Action? && step.handler == BlockedHandler)
      modifies this, pendingArray, oldHandlers, installed
      ensures pendingArray == old(pendingArray) && oldHandlers == old(oldHandlers) && installed == old(installed)
      ensures Valid() && Abstract() == Take(old(Abstract()), step, catchable)
    {
      match step
      case Arrival(sig) => Deliver(sig);
      case Mask(how, s) => var _, _ := SigProcMask(how, s);
      case Action(sig, h) => var _ := RplSignal(sig, h);
    }

    /** Any run of the emulation is the same run of the machine. */
    method Execute(steps: seq<Step>)
      requires Valid() && forall i :: 0 <= i < |steps| ==> !(steps[i].Action? && steps[i].handler == BlockedHandler)
      modifies this, pendingArray, oldHandlers, installed
      ensures Valid() && Abstract() == Run(old(Abstract()), steps, catchable)
    {
      var i := 0;
      assert steps[..0] == [] && steps[..|steps|] == steps;
      hide Take;
      while i < |steps|
        invariant 0 <= i <= |steps| && Valid()
        invariant pendingArray == old(pendingArray) && oldHandlers == old(oldHandlers) && installed == old(installed)
        invariant Abstract() == Run(old(Abstract()), steps[..i], catchable)
      {
        assert steps[..i + 1][..i] == steps[..i];
        Perform(steps[i]);
        i := i + 1;
      }
    }
  }

  // ------------------------------------------------------------------
  // Runs of the machine

  datatype Step = Arrival(sig: Signal) | Mask(how: How, s: Option<SigSet>) | Action(number: int, handler: Handler)

  function Take(m: Machine, step: Step, catchable: SigSet): (n: Machine)
    requires |m.disp| == NSIG
    ensures |n.disp| == NSIG
  {
    match step
    case Arrival(sig) => Arrive(m, sig)
    case Mask(how, s) => if s.Some? && !how.OtherHow? then ChangeMask(m, how, s.value, catchable) else m
    case Action(sig, h) => SetAction(m, sig, h, catchable)
  }

  function Run(m: Machine, steps: seq<Step>, catchable: SigSet): (n: Machine)
    requires |m.disp| == NSIG
    ensures |n.disp| == NSIG
  {
    if steps == [] then m else Take(Run(m, steps[..|steps| - 1], catchable), steps[|steps| - 1], catchable)
  }

  /** The actions a signal has taken, in order. */
  function Actions(log: seq<Event>, sig: Signal): seq<Handler> {
    if log == [] then []
    else
      var last := log[|log| - 1];
      Actions(log[..|log| - 1], sig) + if last.sig == sig then [last.action] else []
  }

  lemma ActionsOne(log: seq<Event>, e: Event, sig: Signal)
    ensures Actions(log + [e], sig) == Actions(log, sig) + if e.sig == sig then [e.action] else []
  {
    assert (log + [e])[..|log|] == log;
  }

  /** Letting signals through touches neither the mask nor what is pending, and each of
      them acts exactly once, by its own disposition. */
  lemma {:induction false} ActAllOnce(m: Machine, s: SigSet, k: nat, sig: Signal)
    requires |m.disp| == NSIG && k <= NSIG
    ensures var n, acts := ActAll(m, s, k), k <= sig && s[sig];
            && n.mask == m.mask && n.pending == m.pending && m.log <= n.log
            && Actions(n.log, sig) == Actions(m.log, sig) + (if acts then [m.disp[sig]] else [])
            && n.disp[sig] == if acts && m.disp[sig].User? then SIG_DFL else m.disp[sig]
    decreases NSIG - k
  {
    if k == NSIG {
    } else {
      var next := if s[k] then Act(m, k) else m;
      if s[k] { ActionsOne(m.log, Acted(k, m.disp[k]), sig); }
      ActAllOnce(next, s, k + 1, sig);
    }
  }

  /** Pending signals are blocked ones, and blocked ones can be caught. */
  ghost predicate Sound(m: Machine, catchable: SigSet) {
    && |m.disp| == NSIG
    && (forall k :: 0 <= k < NSIG && m.pending[k] ==> m.mask[k])
    && (forall k :: 0 <= k < NSIG && m.mask[k] ==> catchable[k])
  }

  lemma {:induction false} RunSound(m: Machine, steps: seq<Step>, catchable: SigSet)
    requires Sound(m, catchable)
    ensures Sound(Run(m, steps, catchable), catchable)
  {
    if steps == [] {
    } else {
      RunSound(m, steps[..|steps| - 1], catchable);
      var before := Run(m, steps[..|steps| - 1], catchable);
      match steps[|steps| - 1] {
        case Mask(how, s) =>
          if s.Some? && !how.OtherHow? { ChangeMaskMeaning(before, how, s.value, catchable, 0); }
        case _ =>
      }
    }
  }

  /** What a change of the mask does to one signal: newly unblocked, it acts once, by
      its disposition, if it was pending; otherwise, and if it is any other signal, it does
      not act. */
  lemma ChangeMaskMeaning(m: Machine, how: How, s: SigSet, catchable: SigSet, sig: Signal)
    requires |m.disp| == NSIG
    ensures var n, wanted := ChangeMask(m, how, s, catchable), NewMask(m.mask, how, s);
            && (forall k :: 0 <= k < NSIG ==> n.mask[k] == (wanted[k] && (m.mask[k] || catchable[k])))
            && (forall k :: 0 <= k < NSIG ==> n.pending[k] == (m.pending[k] && (wanted[k] || !m.mask[k])))
            && m.log <= n.log
            && if m.mask[sig] && !wanted[sig] && m.pending[sig]
               then Actions(n.log, sig) == Actions(m.log, sig) + [m.disp[sig]]
                    && n.disp[sig] == (if m.disp[sig].User? then SIG_DFL else m.disp[sig])
               else Actions(n.log, sig) == Actions(m.log, sig) && n.disp[sig] == m.disp[sig]
  {
    var wanted := NewMask(m.mask, how, s);
    var unblock := Minus(m.mask, wanted);
    var block := Blockable(Minus(wanted, m.mask), catchable);
    ActAllOnce(m.(mask := Minus(Union(m.mask, block), unblock), pending := Minus(m.pending, unblock)),
               Pending(m, unblock), 0, sig);
  }

  /** The mask signal by signal. Blocking adds the signals given that can be caught and leaves
      the others as they are; unblocking takes away those given; and setting replaces the
      mask. A signal so unblocked acts if it was pending, its handler uninstalled. */
  lemma MaskMeaning(m: Machine, s: SigSet, catchable: SigSet, sig: Signal)
    requires Sound(m, catchable)
    ensures var n := ChangeMask(m, SIG_BLOCK, s, catchable);
            && (n.mask[sig] <==> m.mask[sig] || (s[sig] && catchable[sig]))
            && n.pending[sig] == m.pending[sig] && n.disp[sig] == m.disp[sig]
            && Actions(n.log, sig) == Actions(m.log, sig)
    ensures var n := ChangeMask(m, SIG_UNBLOCK, s, catchable);
            && (n.mask[sig] <==> m.mask[sig] && !s[sig]) && (n.pending[sig] <==> m.pending[sig] && !s[sig])
            && Freed(m, n, sig, s[sig])
    ensures var n := ChangeMask(m, SIG_SETMASK, s, catchable);
            && (n.mask[sig] <==> s[sig] && catchable[sig]) && (n.pending[sig] <==> m.pending[sig] && s[sig])
            && Freed(m, n, sig, !s[sig])
  {
    hide ChangeMask, Actions;
    ChangeMaskMeaning(m, SIG_BLOCK, s, catchable, sig);
    ChangeMaskMeaning(m, SIG_UNBLOCK, s, catchable, sig);
    ChangeMaskMeaning(m, SIG_SETMASK, s, catchable, sig);
  }

  /** The signal has acted just if it was pending and is freed. */
  ghost predicate Freed(m: Machine, n: Machine, sig: Signal, freed: bool)
    requires |m.disp| == |n.disp| == NSIG
  {
    if freed && m.pending[sig] then
      && Actions(n.log, sig) == Actions(m.log, sig) + [m.disp[sig]]
      && n.disp[sig] == if m.disp[sig].User? then SIG_DFL else m.disp[sig]
    else Actions(n.log, sig) == Actions(m.log, sig) && n.disp[sig] == m.disp[sig]
  }

  ghost predicate KeepsBlocked(step: Step, sig: Signal) {
    step.Mask? && step.s.Some? ==>
      match step.how
      case SIG_BLOCK => true
      case SIG_SETMASK => step.s.value[sig]
      case SIG_UNBLOCK => !step.s.value[sig]
      case OtherHow(_) => true
  }

  /** No step of the run asks for the signal to be unblocked. */
  ghost predicate NeverUnblocks(steps: seq<Step>, sig: Signal) {
    forall i :: 0 <= i < |steps| ==> KeepsBlocked(steps[i], sig)
  }

  /** What a signal is to do after one step, and after a run, that only the application's
      settings change. */
  function SetBy(h: Handler, step: Step, sig: Signal): Handler {
    if step.Action? && step.number == sig && step.handler != SIG_ERR then step.handler else h
  }

  function Latest(h: Handler, steps: seq<Step>, sig: Signal): Handler {
    if steps == [] then h else SetBy(Latest(h, steps[..|steps| - 1], sig), steps[|steps| - 1], sig)
  }

  lemma HeldStep(m: Machine, step: Step, catchable: SigSet, sig: Signal)
    requires |m.disp| == NSIG && m.mask[sig] && KeepsBlocked(step, sig)
    ensures var n := Take(m, step, catchable);
            && n.mask[sig]
            && Actions(n.log, sig) == Actions(m.log, sig)
            && (n.pending[sig] <==> m.pending[sig] || step == Arrival(sig))
            && (catchable[sig] ==> n.disp[sig] == SetBy(m.disp[sig], step, sig))
  {
    hide ChangeMask, Actions;
    match step
    case Arrival(other) => ActionsOne(m.log, Acted(other, m.disp[other]), sig);
    case Mask(how, s) =>
      if s.Some? && !how.OtherHow? { ChangeMaskMeaning(m, how, s.value, catchable, sig); }
    case Action(_, _) =>
  }

  /** While a signal stays blocked it does nothing, however often it arrives; it is pending
      afterwards just when it was before or has arrived since; and it is to do what the
      application last asked for. */
  lemma {:induction false} HeldBack(m: Machine, steps: seq<Step>, catchable: SigSet, sig: Signal)
    requires |m.disp| == NSIG && m.mask[sig] && NeverUnblocks(steps, sig)
    ensures var n := Run(m, steps, catchable);
            && n.mask[sig]
            && Actions(n.log, sig) == Actions(m.log, sig)
            && (n.pending[sig] <==> m.pending[sig] || Arrival(sig) in steps)
            && (catchable[sig] ==> n.disp[sig] == Latest(m.disp[sig], steps, sig))
  {
    hide Take, Actions, KeepsBlocked;
    if steps == [] {
    } else {
      var init, last := steps[..|steps| - 1], steps[|steps| - 1];
      assert steps == init + [last];
      HeldBack(m, init, catchable, sig);
      HeldStep(Run(m, init, catchable), last, catchable, sig);
    }
  }

  ghost predicate KeepsFree(step: Step, sig: Signal) {
    step.Mask? && step.s.Some? && (step.how.SIG_BLOCK? || step.how.SIG_SETMASK?) ==> !step.s.value[sig]
  }

  /** No step of the run asks for the signal to be blocked. */
  ghost predicate NeverBlocks(steps: seq<Step>, sig: Signal) {
    forall i :: 0 <= i < |steps| ==> KeepsFree(steps[i], sig)
  }

  /** What a free signal is to do after a run: what the application last asked for, and the
      default once its handler has run. */
  function FreeAction(h: Handler, steps: seq<Step>, sig: Signal): Handler {
    if steps == [] then h
    else
      var now, last := FreeAction(h, steps[..|steps| - 1], sig), steps[|steps| - 1];
      if last == Arrival(sig) then if now.User? then SIG_DFL else now
      else if last.Action? && last.number == sig && last.handler != SIG_ERR then last.handler
      else now
  }

  /** What it does meanwhile, arrival by arrival. */
  function Reactions(h: Handler, steps: seq<Step>, sig: Signal): seq<Handler> {
    if steps == [] then []
    else
      Reactions(h, steps[..|steps| - 1], sig)
      + if steps[|steps| - 1] == Arrival(sig) then [FreeAction(h, steps[..|steps| - 1], sig)] else []
  }

  lemma FreeStep(m: Machine, step: Step, catchable: SigSet, sig: Signal)
    requires |m.disp| == NSIG && !m.mask[sig] && !m.pending[sig] && catchable[sig] && KeepsFree(step, sig)
    ensures var n := Take(m, step, catchable);
            && !n.mask[sig] && !n.pending[sig]
            && Actions(n.log, sig) == Actions(m.log, sig) + (if step == Arrival(sig) then [m.disp[sig]] else [])
            && n.disp[sig] ==
                 if step == Arrival(sig) then if m.disp[sig].User? then SIG_DFL else m.disp[sig]
                 else if step.Action? && step.number == sig && step.handler != SIG_ERR then step.handler
                 else m.disp[sig]
  {
    hide ChangeMask, Actions;
    match step
    case Arrival(other) => ActionsOne(m.log, Acted(other, m.disp[other]), sig);
    case Mask(how, s) =>
      if s.Some? && !how.OtherHow? { ChangeMaskMeaning(m, how, s.value, catchable, sig); }
    case Action(_, _) =>
  }

  /** While a signal is free it acts each time it arrives, by what the application last asked
      for, and by default once its handler has run. */
  lemma {:induction false} ActsWhenFree(m: Machine, steps: seq<Step>, catchable: SigSet, sig: Signal)
    requires |m.disp| == NSIG && !m.mask[sig] && !m.pending[sig] && catchable[sig] && NeverBlocks(steps, sig)
    ensures var n := Run(m, steps, catchable);
            && !n.mask[sig] && !n.pending[sig]
            && Actions(n.log, sig) == Actions(m.log, sig) + Reactions(m.disp[sig], steps, sig)
            && n.disp[sig] == FreeAction(m.disp[sig], steps, sig)
  {
    hide Take, Actions, KeepsFree;
    if steps == [] {
    } else {
      var init, last := steps[..|steps| - 1], steps[|steps| - 1];
      ActsWhenFree(m, init, catchable, sig);
      FreeStep(Run(m, init, catchable), last, catchable, sig);
    }
  }

  /** Blocking a signal, any run that keeps it blocked, and unblocking it: it acts exactly
      once if it arrived at all in between, by the disposition it had before or was given
      since, and otherwise not at all. */
  lemma ActsOnceOnUnblock(m: Machine, block: SigSet, steps: seq<Step>, unblock: SigSet, catchable: SigSet, sig: Signal)
    requires Sound(m, catchable) && !m.mask[sig] && catchable[sig] && block[sig] && unblock[sig]
    requires NeverUnblocks(steps, sig)
    ensures var held := Run(ChangeMask(m, SIG_BLOCK, block, catchable), steps, catchable);
            var n := ChangeMask(held, SIG_UNBLOCK, unblock, catchable);
            && !n.mask[sig] && !n.pending[sig]
            && Actions(n.log, sig) == Actions(m.log, sig)
                 + (if Arrival(sig) in steps then [Latest(m.disp[sig], steps, sig)] else [])
  {
    var blocked := ChangeMask(m, SIG_BLOCK, block, catchable);
    ChangeMaskMeaning(m, SIG_BLOCK, block, catchable, sig);
    HeldBack(blocked, steps, catchable, sig);
    ChangeMaskMeaning(Run(blocked, steps, catchable), SIG_UNBLOCK, unblock, catchable, sig);
  }

  /** Blocking signals and setting the old mask back at once changes nothing at all. */
  lemma BlockThenRestore(m: Machine, block: SigSet, catchable: SigSet)
    requires Sound(m, catchable)
    ensures ChangeMask(ChangeMask(m, SIG_BLOCK, block, catchable), SIG_SETMASK, m.mask, catchable) == m
  {
    var blocked := ChangeMask(m, SIG_BLOCK, block, catchable);
    QuietChange(m, SIG_BLOCK, block, catchable);
    assert blocked == m.(mask := blocked.mask);
    QuietChange(blocked, SIG_SETMASK, m.mask, catchable);
    var restored := ChangeMask(blocked, SIG_SETMASK, m.mask, catchable);
    assert restored.mask == m.mask by {
      ChangeMaskMeaning(m, SIG_BLOCK, block, catchable, 0);
      ChangeMaskMeaning(blocked, SIG_SETMASK, m.mask, catchable, 0);
    }
  }

  /** When no pending signal is unblocked, only the mask changes. */
  lemma QuietChange(m: Machine, how: How, s: SigSet, catchable: SigSet)
    requires |m.disp| == NSIG
    requires forall k :: 0 <= k < NSIG && m.mask[k] && m.pending[k] ==> NewMask(m.mask, how, s)[k]
    ensures ChangeMask(m, how, s, catchable) == m.(mask := ChangeMask(m, how, s, catchable).mask)
  {
    var wanted := NewMask(m.mask, how, s);
    var unblock := Minus(m.mask, wanted);
    var block := Blockable(Minus(wanted, m.mask), catchable);
    ActNone(m.(mask := Minus(Union(m.mask, block), unblock), pending := Minus(m.pending, unblock)),
        Pending(m, unblock), 0);
    assert Minus(m.pending, unblock) == m.pending;
  }

  lemma {:induction false} ActNone(m: Machine, s: SigSet, k: nat)
    requires |m.disp| == NSIG && k <= NSIG && forall j :: 0 <= j < NSIG ==> !s[j]
    ensures ActAll(m, s, k) == m
    decreases NSIG - k
  {
    if k == NSIG {
    } else {
      ActNone(m, s, k + 1);
    }
  }
}
