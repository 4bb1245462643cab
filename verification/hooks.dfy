/** `c_dll_hook_manager`: the pending-patch list, the startup pass, the
    loader-notification events and the completion rule. Each entry point is
    one atomic step (the source serialises them with one mutex). The patch
    applier is the oracle `apply` over an abstract process state `W`; the
    loader's module lookups, export lookups and registration result are the
    fields of an `Os` record. */
module Hooks {
  import opened Prelude
  import opened Parser
  import opened Utils

  /** `dll_notification_reason_loaded`. */
  const ReasonLoaded: nat := 1

  /** The target of an absolute patch, and the name of the host executable. */
  const AbsoluteTarget: string := "-"
  const HostTarget: string := "<host>"

  const NtdllName: string := "ntdll.dll"
  const RegisterName: string := "LdrRegisterDllNotification"
  const UnregisterName: string := "LdrUnregisterDllNotification"

  /** The loader as the manager sees it: `GetModuleHandleW(nullptr)`,
      `GetModuleHandleA(name)` (0 when not loaded), `GetProcAddress`, and the
      status and cookie `LdrRegisterDllNotification` hands back. */
  datatype Os = Os(
    hostBase: nat,
    moduleBase: string -> nat,
    procAddress: ProcLookup,
    registerStatus: int,
    cookie: nat)

  /** `NT_SUCCESS`: a non-negative `NTSTATUS`. */
  predicate NtSuccess(status: int) {
    status >= 0
  }

  /** One call of `c_patcher::apply`: its result and the process after it. */
  datatype Step<W> = Step(ok: bool, world: W)

  /** `c_patcher::apply(base, patch)` run against a process state. */
  type Applier<!W> = (W, nat, Patch) -> Step<W>

  /** The manager's state. Function pointers and the cookie are addresses,
      0 being null; `unloadRequests` counts the unload threads started and
      `unregisterCalls` the calls to `LdrUnregisterDllNotification`. */
  datatype Manager = Manager(
    pending: seq<Patch>,
    hasUnloadFn: bool,
    cookie: nat,
    registerFn: nat,
    unregisterFn: nat,
    unloadRequests: nat,
    unregisterCalls: nat)

  /** The constructor: every patch pending, not registered, nothing unloaded
      or unregistered yet. */
  function NewManager(patches: seq<Patch>, hasUnloadFn: bool): (r: Manager)
    ensures r.pending == patches && r.hasUnloadFn == hasUnloadFn
    ensures r.cookie == 0 && r.registerFn == 0 && r.unregisterFn == 0
    ensures r.unloadRequests == 0 && r.unregisterCalls == 0 && UnloadOnce(r)
  {
    Manager(patches, hasUnloadFn, 0, 0, 0, 0, 0)
  }

  /* ---------------- immediate resolution ---------------- */

  /** `resolve_module_base`: `-` names no module, `<host>` is the host
      executable's image, and any other name is looked up as a loaded module. */
  function ResolveModuleBase(os: Os, target: string): (r: nat)
    ensures target == AbsoluteTarget ==> r == 0
    ensures target == HostTarget ==> r == os.hostBase
    ensures target != AbsoluteTarget && target != HostTarget ==> r == os.moduleBase(target)
  {
    if target == AbsoluteTarget then 0
    else if target == HostTarget then os.hostBase
    else os.moduleBase(target)
  }

  /** A patch whose module is not loaded yet; it waits for a load event. */
  predicate Deferred(os: Os, p: Patch) {
    p.target != AbsoluteTarget && ResolveModuleBase(os, p.target) == 0
  }

  /** `try_apply_loaded_module`: `None` defers the patch. An absolute patch
      is applied at once with a null base; any other is applied to its
      module's base when that module is loaded, and deferred otherwise. */
  function TryApplyLoaded<W>(os: Os, apply: Applier<W>, w: W, p: Patch): (r: Option<Step<W>>)
    ensures r.None? <==> Deferred(os, p)
    ensures p.target == AbsoluteTarget ==> r == Some(apply(w, 0, p))
    ensures p.target == HostTarget ==> r == if os.hostBase == 0 then None else Some(apply(w, os.hostBase, p))
    ensures p.target != AbsoluteTarget && p.target != HostTarget ==>
      r == if os.moduleBase(p.target) == 0 then None else Some(apply(w, os.moduleBase(p.target), p))
  {
    var base := ResolveModuleBase(os, p.target);
    if p.target == AbsoluteTarget then Some(apply(w, 0, p))
    else if base == 0 then None
    else Some(apply(w, base, p))
  }

  /** The patches of `ps` that wait for a load event, in order. */
  function DeferredOnly(os: Os, ps: seq<Patch>): (r: seq<Patch>)
    ensures forall p :: p in r <==> p in ps && Deferred(os, p)
    ensures |r| <= |ps|
    decreases |ps|
  {
    if |ps| == 0 then []
    else
      var n := |ps| - 1;
      assert ps == ps[..n] + [ps[n]];
      DeferredOnly(os, ps[..n]) + (if Deferred(os, ps[n]) then [ps[n]] else [])
  }

  /* ---------------- place ---------------- */

  /** How the loop of `place` ends: at the patch `at` whose application
      failed, or having been through every patch, keeping the deferred ones. */
  datatype PassResult<W> = Failed(at: nat, world: W) | Done(kept: seq<Patch>, world: W)

  /** The loop of `place`, patch by patch in list order: a deferred patch
      is kept, an applied one dropped, and the first failed application ends
      the loop. The source collects the applied indices and erases them from
      the back, which leaves the kept patches in their original order. */
  function StartupPass<W>(os: Os, apply: Applier<W>, w: W, ps: seq<Patch>): (r: PassResult<W>)
    ensures r.Done? ==> r.kept == DeferredOnly(os, ps)
    ensures r.Failed? ==> r.at < |ps| && !Deferred(os, ps[r.at])
    decreases |ps|
  {
    if |ps| == 0 then Done([], w)
    else
      var n := |ps| - 1;
      match StartupPass(os, apply, w, ps[..n])
      case Failed(at, w2) => Failed(at, w2)
      case Done(kept, w2) =>
        match TryApplyLoaded(os, apply, w2, ps[n])
        case None => Done(kept + [ps[n]], w2)
        case Some(step) => if step.ok then Done(kept, step.world) else Failed(n, step.world)
  }

  /** A failed pass failed on the patch at `at`: the pass over the patches
      before it went through, the application of that patch failed, and the
      process is as that application left it, so no later patch was tried. */
  lemma {:induction false} StartupPassStopsAtFailure<W>(os: Os, apply: Applier<W>, w: W, ps: seq<Patch>)
    requires StartupPass(os, apply, w, ps).Failed?
    ensures var r := StartupPass(os, apply, w, ps);
      var before := StartupPass(os, apply, w, ps[..r.at]);
      before.Done? && TryApplyLoaded(os, apply, before.world, ps[r.at]) == Some(Step(false, r.world))
    decreases |ps|
  {
    var n := |ps| - 1;
    var prev := StartupPass(os, apply, w, ps[..n]);
    if prev.Failed? {
      StartupPassStopsAtFailure(os, apply, w, ps[..n]);
      assert ps[..n][..prev.at] == ps[..prev.at];
    }
  }

  /** In a completed pass every patch went through: the pass over the
      patches before `i` completed, and patch `i` was deferred or its
      application succeeded. */
  lemma {:induction false} StartupPassAppliedEach<W>(os: Os, apply: Applier<W>, w: W, ps: seq<Patch>, i: nat)
    requires StartupPass(os, apply, w, ps).Done? && i < |ps|
    ensures var before := StartupPass(os, apply, w, ps[..i]);
      before.Done? && (Deferred(os, ps[i]) || TryApplyLoaded(os, apply, before.world, ps[i]).value.ok)
    decreases |ps|
  {
    var n := |ps| - 1;
    StartupPassLast(os, apply, w, ps);
    if i < n {
      StartupPassAppliedEach(os, apply, w, ps[..n], i);
      assert ps[..n][..i] == ps[..i];
    }
  }

  /** The last step of a completed pass: the pass over the earlier patches
      completed, and the last patch was deferred or applied. */
  lemma StartupPassLast<W>(os: Os, apply: Applier<W>, w: W, ps: seq<Patch>)
    requires |ps| > 0 && StartupPass(os, apply, w, ps).Done?
    ensures var prev := StartupPass(os, apply, w, ps[..|ps| - 1]);
      prev.Done? && (Deferred(os, ps[|ps| - 1]) || TryApplyLoaded(os, apply, prev.world, ps[|ps| - 1]).value.ok)
  {
  }

  /** The loader-side conditions for a registration to succeed: both exports
      found in a loaded ntdll, and a success status. */
  predicate RegistrationGranted(os: Os) {
    var ntdll := os.moduleBase(NtdllName);
    && ntdll != 0
    && os.procAddress(ntdll, RegisterName) != 0
    && os.procAddress(ntdll, UnregisterName) != 0
    && NtSuccess(os.registerStatus)
  }

  datatype Registration = Registration(ok: bool, manager: Manager)

  /** `register_notification` after `resolve_ntdll_functions`: both exports
      must resolve (two entries in the import map), then the call must
      return a success status, which stores the cookie. */
  function RegisterNotification(os: Os, m: Manager): (r: Registration)
    ensures r.ok <==> RegistrationGranted(os)
    ensures r.ok ==> (r.manager.cookie == os.cookie
      && r.manager.unregisterFn == os.procAddress(os.moduleBase(NtdllName), UnregisterName))
    ensures !r.ok ==> r.manager.cookie == m.cookie
    ensures r.manager.pending == m.pending && r.manager.unloadRequests == m.unloadRequests
      && r.manager.hasUnloadFn == m.hasUnloadFn && r.manager.unregisterCalls == m.unregisterCalls
  {
    var ntdll := os.moduleBase(NtdllName);
    var names := [RegisterName, UnregisterName];
    var imports := ResolveDllImports(ntdll, os.procAddress, names);
    var resolved := ntdll != 0 && forall i :: 0 <= i < |names| ==> os.procAddress(ntdll, names[i]) != 0;
    assert resolved ==> imports.Keys == {RegisterName, UnregisterName};
    assert !resolved ==> imports == map[];
    if |imports| != 2 then
      Registration(false, m)
    else
      var m1 := m.(registerFn := imports[RegisterName], unregisterFn := imports[UnregisterName]);
      if !NtSuccess(os.registerStatus) then Registration(false, m1)
      else Registration(true, m1.(cookie := os.cookie))
  }

  /** `check_completion`: with nothing pending, start the unload thread when
      an unload callback was given. It does not unregister the callback. */
  function CheckCompletion(m: Manager): (r: Manager)
    ensures r.unloadRequests == m.unloadRequests + (if m.pending == [] && m.hasUnloadFn then 1 else 0)
    ensures r.(unloadRequests := m.unloadRequests) == m
  {
    if m.pending == [] && m.hasUnloadFn then m.(unloadRequests := m.unloadRequests + 1) else m
  }

  datatype PlaceResult<W> = PlaceResult(ok: bool, manager: Manager, world: W)

  /** `place`. A failed application ends it at once with the pending list
      as it was, even for patches the pass already wrote. Otherwise the
      deferred patches stay pending, in order; if there are none the
      manager completes and succeeds without registering, else the result
      is the registration's. */
  function Place<W>(os: Os, apply: Applier<W>, w: W, m: Manager): (r: PlaceResult<W>)
    ensures var pass := StartupPass(os, apply, w, m.pending);
      && r.world == pass.world
      && (pass.Failed? ==> !r.ok && r.manager == m)
      && (pass.Done? ==> r.manager.pending == DeferredOnly(os, m.pending))
      && (pass.Done? && DeferredOnly(os, m.pending) == [] ==>
            r.ok && r.manager.cookie == m.cookie
            && r.manager.unloadRequests == m.unloadRequests + (if m.hasUnloadFn then 1 else 0))
      && (pass.Done? && DeferredOnly(os, m.pending) != [] ==>
            (r.ok <==> RegistrationGranted(os))
            && r.manager.unloadRequests == m.unloadRequests
            && (r.ok ==> r.manager.cookie == os.cookie))
  {
    match StartupPass(os, apply, w, m.pending)
    case Failed(_, w2) => PlaceResult(false, m, w2)
    case Done(kept, w2) =>
      var m1 := m.(pending := kept);
      if kept == [] then PlaceResult(true, CheckCompletion(m1), w2)
      else
        var reg := RegisterNotification(os, m1);
        PlaceResult(reg.ok, reg.manager, w2)
  }

  /** No patch left pending after a completed pass is absolute. */
  lemma PlaceKeepsNoAbsolute<W>(os: Os, apply: Applier<W>, w: W, m: Manager)
    requires StartupPass(os, apply, w, m.pending).Done?
    ensures forall p :: p in Place(os, apply, w, m).manager.pending ==> p.target != AbsoluteTarget
  {
  }

  /** When the process accepts every application, the pass never fails. */
  lemma {:induction false} StartupPassSucceeds<W>(os: Os, apply: Applier<W>, w: W, ps: seq<Patch>)
    requires forall w1: W, b: nat, p: Patch :: apply(w1, b, p).ok
    ensures StartupPass(os, apply, w, ps).Done?
    decreases |ps|
  {
    if |ps| > 0 {
      StartupPassSucceeds(os, apply, w, ps[..|ps| - 1]);
    }
  }

  lemma {:induction false} NoneDeferred(os: Os, ps: seq<Patch>)
    requires forall i :: 0 <= i < |ps| ==> !Deferred(os, ps[i])
    ensures DeferredOnly(os, ps) == []
    decreases |ps|
  {
    if |ps| > 0 {
      NoneDeferred(os, ps[..|ps| - 1]);
    }
  }

  /** When every patch resolves at once and applies, `place` succeeds,
      never registers for notifications and starts the unload at once. */
  lemma PlaceAllImmediate<W>(os: Os, apply: Applier<W>, w: W, patches: seq<Patch>)
    requires forall w1: W, b: nat, p: Patch :: apply(w1, b, p).ok
    requires forall i :: 0 <= i < |patches| ==> !Deferred(os, patches[i])
    ensures var r := Place(os, apply, w, NewManager(patches, true));
      r.ok && r.manager.pending == [] && r.manager.cookie == 0 && r.manager.registerFn == 0
      && r.manager.unloadRequests == 1
  {
    StartupPassSucceeds(os, apply, w, patches);
    NoneDeferred(os, patches);
  }

  /* ---------------- load events ---------------- */

  /** One loader notification: its reason, whether the context pointer is
      set, and the loaded module's base name and base address. */
  datatype LoadEvent = LoadEvent(reason: nat, hasContext: bool, name: string, base: nat)

  /** The patches of `ps` aimed at some module other than `name`, in order. */
  function OtherTargets(ps: seq<Patch>, name: string): (r: seq<Patch>)
    decreases |ps|
  {
    if |ps| == 0 then []
    else
      var n := |ps| - 1;
      OtherTargets(ps[..n], name) + (if ps[n].target != name then [ps[n]] else [])
  }

  /** How the loop of `apply_patches_for_module` ends: the list left behind,
      the index `stop` of the patch whose application failed (the length of
      the list when none did), and the process. */
  datatype SweepResult<W> = SweepResult(kept: seq<Patch>, stop: nat, world: W)

  /** The loop of `apply_patches_for_module`, patch by patch in list order:
      a patch for another module is skipped, one for `name` is applied, and
      the first failed application ends the loop. The successes leave the
      list; the failed patch, everything after it and every patch for
      another module stay, in order. */
  function Sweep<W>(apply: Applier<W>, w: W, ps: seq<Patch>, name: string, base: nat): (r: SweepResult<W>)
    ensures r.stop <= |ps|
    ensures r.kept == OtherTargets(ps[..r.stop], name) + ps[r.stop..]
    ensures r.stop < |ps| ==> ps[r.stop].target == name
    decreases |ps|
  {
    if |ps| == 0 then SweepResult([], 0, w)
    else
      var n := |ps| - 1;
      var prev := Sweep(apply, w, ps[..n], name, base);
      assert ps[..n + 1] == ps && ps[n + 1..] == [] && ps[n..] == [ps[n]];
      if prev.stop < n then
        assert ps[..n][..prev.stop] == ps[..prev.stop];
        assert ps[..n][prev.stop..] + [ps[n]] == ps[prev.stop..];
        SweepResult(prev.kept + [ps[n]], prev.stop, prev.world)
      else
        assert ps[..n][..n] == ps[..n] && ps[..n][n..] == [];
        if ps[n].target != name then SweepResult(prev.kept + [ps[n]], n + 1, prev.world)
        else
          var step := apply(prev.world, base, ps[n]);
          if step.ok then SweepResult(prev.kept, n + 1, step.world)
          else SweepResult(prev.kept + [ps[n]], n, step.world)
  }

  /** A sweep that stopped early stopped at a patch for the module whose
      application failed: the sweep over the patches before it went through,
      and the process is as that application left it, so no later patch
      was tried. */
  lemma {:induction false} SweepStopsAtFailure<W>(apply: Applier<W>, w: W, ps: seq<Patch>, name: string, base: nat)
    requires Sweep(apply, w, ps, name, base).stop < |ps|
    ensures var r := Sweep(apply, w, ps, name, base);
      var before := Sweep(apply, w, ps[..r.stop], name, base);
      before.stop == r.stop && apply(before.world, base, ps[r.stop]) == Step(false, r.world)
    decreases |ps|
  {
    var n := |ps| - 1;
    var prev := Sweep(apply, w, ps[..n], name, base);
    if prev.stop < n {
      SweepStopsAtFailure(apply, w, ps[..n], name, base);
      assert ps[..n][..prev.stop] == ps[..prev.stop];
    }
  }

  /** Every patch for the module before `stop` was applied successfully, to
      the process the sweep over the patches before it left. */
  lemma {:induction false} SweepAppliedBefore<W>(apply: Applier<W>, w: W, ps: seq<Patch>, name: string, base: nat, i: nat)
    requires i < Sweep(apply, w, ps, name, base).stop && ps[i].target == name
    ensures var before := Sweep(apply, w, ps[..i], name, base);
      before.stop == i && apply(before.world, base, ps[i]).ok
    decreases |ps|
  {
    var n := |ps| - 1;
    SweepLast(apply, w, ps, name, base);
    if i < n {
      SweepAppliedBefore(apply, w, ps[..n], name, base, i);
      assert ps[..n][..i] == ps[..i];
    }
  }

  /** The last step of a sweep: one that stopped early stopped where the
      sweep over the earlier patches did, and one that went through every
      patch went through the earlier ones, the last being for another
      module or applied. */
  lemma SweepLast<W>(apply: Applier<W>, w: W, ps: seq<Patch>, name: string, base: nat)
    requires |ps| > 0
    ensures var r := Sweep(apply, w, ps, name, base);
      var prev := Sweep(apply, w, ps[..|ps| - 1], name, base);
      && (r.stop < |ps| ==> prev.stop == r.stop)
      && (r.stop == |ps| ==> prev.stop == |ps| - 1 && (ps[|ps| - 1].target != name || apply(prev.world, base, ps[|ps| - 1]).ok))
  {
  }

  /** When the process accepts every application, the sweep removes every
      patch for the module and nothing else. */
  lemma {:induction false} SweepSucceeds<W>(apply: Applier<W>, w: W, ps: seq<Patch>, name: string, base: nat)
    requires forall w1: W, b: nat, p: Patch :: apply(w1, b, p).ok
    ensures Sweep(apply, w, ps, name, base).stop == |ps|
    ensures Sweep(apply, w, ps, name, base).kept == OtherTargets(ps, name)
    decreases |ps|
  {
    if |ps| > 0 {
      SweepSucceeds(apply, w, ps[..|ps| - 1], name, base);
    }
    var r := Sweep(apply, w, ps, name, base);
    assert ps[..r.stop] == ps && ps[r.stop..] == [];
  }

  datatype EventResult<W> = EventResult(manager: Manager, world: W)

  /** `apply_patches_for_module`: the pending list loses exactly the patches
      for the module the sweep applied, the process is as the sweep left
      it, and the only other change is one unload request when the list is
      left empty and an unload callback exists. */
  function ApplyPatchesForModule<W>(apply: Applier<W>, w: W, m: Manager, name: string, base: nat): (r: EventResult<W>)
    ensures var s := Sweep(apply, w, m.pending, name, base);
      && r.world == s.world
      && r.manager.pending == OtherTargets(m.pending[..s.stop], name) + m.pending[s.stop..]
      && r.manager.(pending := m.pending, unloadRequests := m.unloadRequests) == m
      && r.manager.unloadRequests == m.unloadRequests + (if r.manager.pending == [] && m.hasUnloadFn then 1 else 0)
  {
    var s := Sweep(apply, w, m.pending, name, base);
    EventResult(CheckCompletion(m.(pending := s.kept)), s.world)
  }

  /** The module pass never drops a patch aimed at another module. */
  lemma ModulePassKeepsOthers<W>(apply: Applier<W>, w: W, m: Manager, name: string, base: nat)
    ensures forall p :: p in m.pending && p.target != name ==>
      p in ApplyPatchesForModule(apply, w, m, name, base).manager.pending
  {
    var s := Sweep(apply, w, m.pending, name, base);
    OtherTargetsLength(m.pending[..s.stop], name);
    assert m.pending == m.pending[..s.stop] + m.pending[s.stop..];
  }

  /** Some pending patch is aimed at `name` (exact, case-sensitive match). */
  predicate HasTarget(ps: seq<Patch>, name: string) {
    exists p :: p in ps && p.target == name
  }

  /** `on_dll_loaded`: nothing happens for a module no pending patch names. */
  function OnDllLoaded<W>(apply: Applier<W>, w: W, m: Manager, name: string, base: nat): (r: EventResult<W>)
    ensures !HasTarget(m.pending, name) ==> r == EventResult(m, w)
    ensures HasTarget(m.pending, name) ==> r == ApplyPatchesForModule(apply, w, m, name, base)
  {
    if !HasTarget(m.pending, name) then EventResult(m, w)
    else ApplyPatchesForModule(apply, w, m, name, base)
  }

  /** `dll_notification_callback`: only "loaded" events with a context. */
  function DllNotification<W>(apply: Applier<W>, w: W, m: Manager, ev: LoadEvent): (r: EventResult<W>)
    ensures ev.reason != ReasonLoaded || !ev.hasContext ==> r == EventResult(m, w)
    ensures !HasTarget(m.pending, ev.name) ==> r == EventResult(m, w)
    ensures r.manager.cookie == m.cookie && r.manager.unregisterCalls == m.unregisterCalls
    ensures |r.manager.pending| <= |m.pending|
  {
    if ev.reason != ReasonLoaded || !ev.hasContext then EventResult(m, w)
    else
      var r := OnDllLoaded(apply, w, m, ev.name, ev.base);
      var stop := Sweep(apply, w, m.pending, ev.name, ev.base).stop;
      OtherTargetsLength(m.pending[..stop], ev.name);
      r
  }

  /** The patches kept for other modules are exactly those of the list
      that name another module. */
  lemma {:induction false} OtherTargetsLength(ps: seq<Patch>, name: string)
    ensures |OtherTargets(ps, name)| <= |ps|
    ensures forall p :: p in OtherTargets(ps, name) <==> p in ps && p.target != name
    decreases |ps|
  {
    if |ps| > 0 {
      var n := |ps| - 1;
      OtherTargetsLength(ps[..n], name);
      assert ps == ps[..n] + [ps[n]];
    }
  }

  /** Every event in turn. */
  function Run<W>(apply: Applier<W>, w: W, m: Manager, events: seq<LoadEvent>): EventResult<W>
    decreases |events|
  {
    if |events| == 0 then EventResult(m, w)
    else
      var r := DllNotification(apply, w, m, events[0]);
      Run(apply, r.world, r.manager, events[1..])
  }

  /* ---------------- unload at most once ---------------- */

  /** At most one unload request, and only once nothing is pending. */
  ghost predicate UnloadOnce(m: Manager) {
    m.unloadRequests <= 1 && (m.unloadRequests == 1 ==> m.pending == [])
  }

  /** With nothing pending every load event is a no-op. */
  lemma EmptyIgnoresEvents<W>(apply: Applier<W>, w: W, m: Manager, ev: LoadEvent)
    requires m.pending == []
    ensures DllNotification(apply, w, m, ev) == EventResult(m, w)
  {
  }

  lemma EventKeepsUnloadOnce<W>(apply: Applier<W>, w: W, m: Manager, ev: LoadEvent)
    requires UnloadOnce(m)
    ensures UnloadOnce(DllNotification(apply, w, m, ev).manager)
  {
    if ev.reason == ReasonLoaded && ev.hasContext && HasTarget(m.pending, ev.name) {
      assert m.pending != [];
      assert m.unloadRequests == 0;
    }
  }

  lemma {:induction false} RunKeepsUnloadOnce<W>(apply: Applier<W>, w: W, m: Manager, events: seq<LoadEvent>)
    requires UnloadOnce(m)
    ensures UnloadOnce(Run(apply, w, m, events).manager)
    ensures Run(apply, w, m, events).manager.cookie == m.cookie
    decreases |events|
  {
    if |events| > 0 {
      var r := DllNotification(apply, w, m, events[0]);
      EventKeepsUnloadOnce(apply, w, m, events[0]);
      RunKeepsUnloadOnce(apply, r.world, r.manager, events[1..]);
    }
  }

  /** From a fresh manager, `place` followed by any sequence of load events
      starts the unload at most once, and the event path never unregisters
      the callback. */
  lemma UnloadAtMostOnce<W>(os: Os, apply: Applier<W>, w: W, patches: seq<Patch>, hasUnloadFn: bool, events: seq<LoadEvent>)
    ensures var p := Place(os, apply, w, NewManager(patches, hasUnloadFn));
      var r := Run(apply, p.world, p.manager, events);
      r.manager.unloadRequests <= 1 && r.manager.cookie == p.manager.cookie
  {
    var p := Place(os, apply, w, NewManager(patches, hasUnloadFn));
    assert UnloadOnce(p.manager);
    RunKeepsUnloadOnce(apply, p.world, p.manager, events);
  }

  /** A patch for a module that is not loaded yet and an absolute patch:
      `place` applies the absolute one, keeps the other and registers; the
      load event for that module applies it, empties the list and starts
      the unload. */
  lemma DeferredUntilLoaded<W>(os: Os, apply: Applier<W>, w: W, later: Patch, now: Patch, base: nat)
    requires forall w1: W, b: nat, p: Patch :: apply(w1, b, p).ok
    requires later.target != AbsoluteTarget && later.target != HostTarget && os.moduleBase(later.target) == 0
    requires now.target == AbsoluteTarget
    requires RegistrationGranted(os)
    ensures var p := Place(os, apply, w, NewManager([later, now], true));
      && p.ok && p.manager.pending == [later] && p.manager.cookie == os.cookie && p.manager.unloadRequests == 0
      && var e := DllNotification(apply, p.world, p.manager, LoadEvent(ReasonLoaded, true, later.target, base));
         e.manager.pending == [] && e.manager.unloadRequests == 1
  {
    var ps := [later, now];
    StartupPassSucceeds(os, apply, w, ps);
    assert ps[..1] == [later];
    assert [later][..0] == [];
    assert DeferredOnly(os, ps) == [later];
    var p := Place(os, apply, w, NewManager(ps, true));
    assert later in p.manager.pending;
    SweepSucceeds(apply, p.world, [later], later.target, base);
    assert OtherTargets([later], later.target) == [];
  }

  /* ---------------- queries and teardown ---------------- */

  /** `pending_patches`: the number of patches still waiting, 0 exactly when
      none is. */
  function PendingPatches(m: Manager): (r: nat)
    ensures r == 0 <==> m.pending == []
  {
    |m.pending|
  }

  /** `all_patches_applied` agrees with the pending count. */
  function AllPatchesApplied(m: Manager): (r: bool)
    ensures r <==> PendingPatches(m) == 0
  {
    m.pending == []
  }

  /** `unregister_notification`: a no-op without a cookie or an unregister
      function; otherwise one call, after which the cookie is cleared. */
  function Unregister(m: Manager): (r: Manager)
    ensures m.cookie == 0 || m.unregisterFn == 0 ==> r == m
    ensures m.cookie != 0 && m.unregisterFn != 0 ==>
      r.cookie == 0 && r.unregisterCalls == m.unregisterCalls + 1
      && r.(cookie := m.cookie, unregisterCalls := m.unregisterCalls) == m
  {
    if m.cookie == 0 || m.unregisterFn == 0 then m
    else m.(cookie := 0, unregisterCalls := m.unregisterCalls + 1)
  }

  /** A second unregistration does nothing. */
  lemma UnregisterIdempotent(m: Manager)
    ensures Unregister(Unregister(m)) == Unregister(m)
    ensures Unregister(m).unregisterCalls <= m.unregisterCalls + 1
  {
  }
}
