/** The scoped page-protection guard around a patch write, over an abstract
    per-page protection table, and the Win32 `VirtualProtect` call it makes.
    `VirtualProtect` changes every page holding a byte of the range and
    reports the previous protection of the FIRST page only. */
module ProtectionGuard {
  import opened Prelude

  const PageSize: nat := 0x1000

  /** `PAGE_NOACCESS`, `PAGE_READONLY`, `PAGE_READWRITE`, `PAGE_WRITECOPY`,
      `PAGE_EXECUTE_READ`, `PAGE_EXECUTE_READWRITE`, `PAGE_EXECUTE_WRITECOPY`. */
  const PageNoAccess: dword := 0x01
  const PageReadOnly: dword := 0x02
  const PageReadWrite: dword := 0x04
  const PageWriteCopy: dword := 0x08
  const PageExecuteRead: dword := 0x20
  const PageExecuteReadWrite: dword := 0x40
  const PageExecuteWriteCopy: dword := 0x80

  /** A protection under which a store does not fault. */
  predicate Writable(protect: dword) {
    protect == PageReadWrite || protect == PageWriteCopy
      || protect == PageExecuteReadWrite || protect == PageExecuteWriteCopy
  }

  /** Page number to its `PAGE_*` protection; pages absent from the map are
      not committed and read as `PAGE_NOACCESS`. */
  type ProtectionMap = map<nat, dword>

  function ProtectionOf(m: ProtectionMap, page: nat): dword {
    if page in m then m[page] else PageNoAccess
  }

  /** Two tables grant the same access everywhere. */
  ghost predicate SameProtection(a: ProtectionMap, b: ProtectionMap) {
    forall page: nat :: ProtectionOf(a, page) == ProtectionOf(b, page)
  }

  function FirstPage(address: nat): nat {
    address / PageSize
  }

  function LastPage(address: nat, size: nat): nat
    requires size > 0
  {
    (address + size - 1) / PageSize
  }

  lemma PagesOrdered(address: nat, size: nat)
    requires size > 0
    ensures FirstPage(address) <= LastPage(address, size)
  {
    var q := address / PageSize;
    assert q * PageSize <= address;
    assert q * PageSize <= address + size - 1;
  }

  /** `page` holds at least one byte of `[address, address + size)`. */
  predicate InSpan(address: nat, size: nat, page: nat) {
    size > 0 && FirstPage(address) <= page <= LastPage(address, size)
  }

  /** The pages holding at least one byte of `[address, address + size)`. */
  function Span(address: nat, size: nat): (s: set<nat>)
    requires size > 0
    ensures FirstPage(address) in s
    ensures forall page :: page in s <==> InSpan(address, size, page)
  {
    PagesOrdered(address, size);
    set page: nat | FirstPage(address) <= page <= LastPage(address, size) && InSpan(address, size, page)
  }

  /** `m` with every page of `pages` set to `protect`. */
  function SetPages(m: ProtectionMap, pages: set<nat>, protect: dword): (r: ProtectionMap)
    ensures forall page :: page in pages ==> ProtectionOf(r, page) == protect
    ensures forall page :: page !in pages ==> ProtectionOf(r, page) == ProtectionOf(m, page)
  {
    map page | page in m.Keys + pages :: if page in pages then protect else m[page]
  }

  datatype ProtectCall = ProtectCall(ok: bool, oldProtect: dword, after: ProtectionMap)

  /** `VirtualProtect(address, size, newProtect, &old)`. Whether the system
      grants the change is the oracle `granted`. On success every page of
      the span gets `newProtect` and `old` is the first page's previous
      protection; on failure nothing changes. */
  function VirtualProtect(m: ProtectionMap, address: nat, size: dword, newProtect: dword, granted: bool): (c: ProtectCall)
    requires size > 0
    ensures c.ok == granted
    ensures !c.ok ==> c.after == m
    ensures c.ok ==> c.oldProtect == ProtectionOf(m, FirstPage(address))
    ensures c.ok ==> (forall page :: InSpan(address, size, page) ==> ProtectionOf(c.after, page) == newProtect)
    ensures (forall page: nat :: !InSpan(address, size, page) ==> ProtectionOf(c.after, page) == ProtectionOf(m, page))
  {
    if granted then
      ProtectCall(true, ProtectionOf(m, FirstPage(address)), SetPages(m, Span(address, size), newProtect))
    else
      ProtectCall(false, 0, m)
  }

  /** `c_protection_guard` as written: the size kept as a DWORD, the single
      `old` value from the constructor's call, and `ok` as that call's result. */
  datatype Guard = Guard(address: nat, size: dword, oldProtect: dword, ok: bool)

  datatype Scope = Scope(guard: Guard, protection: ProtectionMap)

  /** The constructor: make the range `PAGE_EXECUTE_READWRITE`. */
  function Acquire(m: ProtectionMap, address: nat, size: nat, granted: bool): (s: Scope)
    requires 0 < size < DwordLimit
    ensures s.guard.ok == granted && s.guard.address == address && s.guard.size == size
    ensures !s.guard.ok ==> s.protection == m
    ensures s.guard.ok ==> s.guard.oldProtect == ProtectionOf(m, FirstPage(address))
    ensures s.guard.ok ==> (forall page :: InSpan(address, size, page) ==> ProtectionOf(s.protection, page) == PageExecuteReadWrite)
    ensures (forall page: nat :: !InSpan(address, size, page) ==> ProtectionOf(s.protection, page) == ProtectionOf(m, page))
  {
    var c := VirtualProtect(m, address, size, PageExecuteReadWrite, granted);
    Scope(Guard(address, size, c.oldProtect, c.ok), c.after)
  }

  /** The destructor: when the constructor succeeded, put the saved value
      back over the whole range. The restoring call is taken to succeed, as
      it undoes a change the system has just granted on the same range. */
  function Release(g: Guard, m: ProtectionMap): (r: ProtectionMap)
    ensures !g.ok ==> r == m
    ensures g.ok && g.size > 0 ==> (forall page :: InSpan(g.address, g.size, page) ==> ProtectionOf(r, page) == g.oldProtect)
    ensures (forall page: nat :: !InSpan(g.address, g.size, page) ==> ProtectionOf(r, page) == ProtectionOf(m, page))
  {
    if g.ok && g.size > 0 then VirtualProtect(m, g.address, g.size, g.oldProtect, true).after else m
  }

  /** Every page of the span had the same protection as the first. */
  ghost predicate UniformSpan(m: ProtectionMap, address: nat, size: nat)
    requires size > 0
  {
    forall page :: InSpan(address, size, page) ==> ProtectionOf(m, page) == ProtectionOf(m, FirstPage(address))
  }

  /** `after` is `before` with every page of the span set to the first
      page's protection in `before`: what the guard as written restores. */
  ghost predicate RestoredAsWritten(before: ProtectionMap, after: ProtectionMap, address: nat, size: nat) {
    forall page: nat :: ProtectionOf(after, page) ==
      if InSpan(address, size, page) then ProtectionOf(before, FirstPage(address)) else ProtectionOf(before, page)
  }

  /** Restoring the first page's value over the span gives the table back
      exactly when the span was uniformly protected. */
  lemma RestoredSameIffUniform(before: ProtectionMap, after: ProtectionMap, address: nat, size: nat)
    requires size > 0 && RestoredAsWritten(before, after, address, size)
    ensures SameProtection(after, before) <==> UniformSpan(before, address, size)
  {
    if SameProtection(after, before) {
      forall page | InSpan(address, size, page)
        ensures ProtectionOf(before, page) == ProtectionOf(before, FirstPage(address))
      {
        assert ProtectionOf(after, page) == ProtectionOf(before, page);
      }
    }
    if UniformSpan(before, address, size) {
      forall page: nat
        ensures ProtectionOf(after, page) == ProtectionOf(before, page)
      {
        if InSpan(address, size, page) {
          assert ProtectionOf(before, page) == ProtectionOf(before, FirstPage(address));
        }
      }
    }
  }

  /** What a scope of the guard as written leaves behind: nothing changed
      when the constructor's call failed; otherwise pages outside the range
      untouched and every page of the range at the first page's old
      protection, so the table comes back exactly when the range was
      uniformly protected to begin with. */
  lemma GuardScopeAsWritten(m: ProtectionMap, address: nat, size: nat, granted: bool)
    requires 0 < size < DwordLimit
    ensures var s := Acquire(m, address, size, granted);
      var after := Release(s.guard, s.protection);
      && (!granted ==> after == m)
      && (granted ==> RestoredAsWritten(m, after, address, size))
      && (granted ==> (SameProtection(after, m) <==> UniformSpan(m, address, size)))
  {
    var s := Acquire(m, address, size, granted);
    var after := Release(s.guard, s.protection);
    if granted {
      assert RestoredAsWritten(m, after, address, size);
      RestoredSameIffUniform(m, after, address, size);
    }
  }

  /** A two-byte write straddling a page boundary, from an executable page
      into a read-only one: after the scope the read-only page has become
      executable. */
  lemma GuardWidensProtection()
    ensures var m := map[0 := PageExecuteRead, 1 := PageReadOnly];
      var s := Acquire(m, PageSize - 1, 2, true);
      var after := Release(s.guard, s.protection);
      ProtectionOf(m, 1) == PageReadOnly && ProtectionOf(after, 1) == PageExecuteRead
  {
    var m := map[0 := PageExecuteRead, 1 := PageReadOnly];
    assert FirstPage(PageSize - 1) == 0;
    assert LastPage(PageSize - 1, 2) == 1;
    GuardScopeAsWritten(m, PageSize - 1, 2, true);
  }

  /** The guard as intended: every page of the span keeps its own old
      protection, so the destructor can put each one back. */
  datatype PageGuard = PageGuard(address: nat, size: dword, saved: map<nat, dword>, ok: bool)

  datatype PageScope = PageScope(guard: PageGuard, protection: ProtectionMap)

  function AcquirePages(m: ProtectionMap, address: nat, size: nat, granted: bool): (s: PageScope)
    requires 0 < size < DwordLimit
    ensures s.guard.ok == granted
    ensures !s.guard.ok ==> s.protection == m
    ensures s.guard.ok ==> (forall page :: InSpan(address, size, page) ==> ProtectionOf(s.protection, page) == PageExecuteReadWrite)
    ensures (forall page: nat :: !InSpan(address, size, page) ==> ProtectionOf(s.protection, page) == ProtectionOf(m, page))
  {
    var saved := map page | page in Span(address, size) :: ProtectionOf(m, page);
    var c := VirtualProtect(m, address, size, PageExecuteReadWrite, granted);
    PageScope(PageGuard(address, size, saved, c.ok), c.after)
  }

  /** Put each saved page back to its own value. */
  function ReleasePages(g: PageGuard, m: ProtectionMap): ProtectionMap
  {
    if g.ok then map page | page in m.Keys + g.saved.Keys :: if page in g.saved then g.saved[page] else m[page]
    else m
  }

  /** Whatever happens in between, a scope of the corrected guard leaves the
      protection of every page as it found it, uniform range or not. */
  lemma PageGuardRestores(m: ProtectionMap, address: nat, size: nat, granted: bool)
    requires 0 < size < DwordLimit
    ensures var s := AcquirePages(m, address, size, granted);
      SameProtection(ReleasePages(s.guard, s.protection), m)
  {
    var s := AcquirePages(m, address, size, granted);
    var after := ReleasePages(s.guard, s.protection);
    forall page: nat
      ensures ProtectionOf(after, page) == ProtectionOf(m, page)
    {
      if granted && InSpan(address, size, page) {
        assert page in s.guard.saved;
      }
    }
  }
}
