/** `c_patcher`: resolve a patch's address against a module base, check the
    bytes there, and write the replacement under a protection guard. Memory
    is a partial map from address to byte plus the per-page protection
    table; an address outside the byte map is not readable. */
module Patcher {
  import opened Prelude
  import opened Parser
  import opened PeImage
  import opened ProtectionGuard

  datatype Memory = Memory(bytes: map<nat, byte>, protection: ProtectionMap)

  /** `a` lies in `[target, target + n)`. */
  predicate InRange(target: nat, n: nat, a: nat) {
    target <= a < target + n
  }

  /** `[target, target + n)` is readable. */
  ghost predicate Mapped(mem: Memory, target: nat, n: nat) {
    forall a: nat :: InRange(target, n, a) ==> a in mem.bytes
  }

  /** The `n` bytes at `target`. */
  function Live(mem: Memory, target: nat, n: nat): (s: seq<byte>)
    requires Mapped(mem, target, n)
    ensures |s| == n
    ensures forall i :: 0 <= i < n ==> s[i] == mem.bytes[target + i]
  {
    seq(n, i requires 0 <= i < n => mem.bytes[target + i])
  }

  /** What the image at the module base holds, as far as the translation of
      a file offset needs it. */
  predicate HeadersReadable(h: ImageHeaders) {
    HasSignatures(h) ==> TableCovered(h)
  }

  /** `resolve_address`; 0 stands for `nullptr`. An absolute patch is its
      own address, an RVA is taken from the module base, and a file offset
      goes through the section table, which may yield null. */
  function ResolveAddress(base: nat, p: Patch, h: ImageHeaders): (r: nat)
    requires HeadersReadable(h)
    ensures p.kind == Absolute ==> r == p.address
    ensures p.kind == Rva ==> r == base + p.address && (base > 0 ==> r != 0)
    ensures p.kind == File ==> r == FileOffsetToPtr(base, p.address, h)
  {
    match p.kind
    case Absolute => p.address
    case Rva => base + p.address
    case File => FileOffsetToPtr(base, p.address, h)
  }

  /** An absolute patch lands at its literal address wherever the module is
      loaded; RVA and file-offset patches move with the module. */
  lemma ResolveRelocates(base: nat, delta: nat, p: Patch, h: ImageHeaders)
    requires HeadersReadable(h)
    requires base > 0
    ensures p.kind == Absolute ==> ResolveAddress(base + delta, p, h) == p.address
    ensures p.kind == Rva ==> ResolveAddress(base + delta, p, h) == ResolveAddress(base, p, h) + delta
    ensures p.kind == File ==> (ResolveAddress(base + delta, p, h) ==
      if ResolveAddress(base, p, h) == 0 then 0 else ResolveAddress(base, p, h) + delta)
  {
    if p.kind == File {
      FileOffsetRelocates(base, delta, p.address, h);
    }
  }

  /** The byte-by-byte comparison behind `std::ranges::equal` and `memcmp`. */
  function BytesAt(mem: Memory, target: nat, expected: seq<byte>): (r: bool)
    requires Mapped(mem, target, |expected|)
    ensures r <==> Live(mem, target, |expected|) == expected
    decreases |expected|
  {
    if |expected| == 0 then true
    else if mem.bytes[target] != expected[0] then
      assert Live(mem, target, |expected|)[0] != expected[0];
      false
    else
      var rest := BytesAt(mem, target + 1, expected[1..]);
      assert Live(mem, target, |expected|) == [expected[0]] + Live(mem, target + 1, |expected| - 1);
      rest
  }

  /** The reads `compare_data` makes: the `off` bytes, and the `on` bytes
      when those differ and `on` is non-empty. */
  ghost predicate CompareReads(mem: Memory, target: nat, p: Patch) {
    && Mapped(mem, target, |p.off|)
    && (Live(mem, target, |p.off|) != p.off && p.on != [] ==> Mapped(mem, target, |p.on|))
  }

  /** `compare_data`: the original bytes are there, or the patch has already
      been applied. */
  function CompareData(mem: Memory, target: nat, p: Patch): (r: bool)
    requires CompareReads(mem, target, p)
    ensures r <==> (Live(mem, target, |p.off|) == p.off
      || (p.on != [] && Live(mem, target, |p.on|) == p.on))
  {
    if BytesAt(mem, target, p.off) then true
    else if p.on != [] && BytesAt(mem, target, p.on) then true
    else false
  }

  /** `mem2` holds `on` at `target` and agrees with `mem` on every other
      address, including which addresses are readable. */
  ghost predicate Written(mem: Memory, mem2: Memory, target: nat, on: seq<byte>) {
    && Mapped(mem2, target, |on|)
    && Live(mem2, target, |on|) == on
    && (forall a: nat :: !InRange(target, |on|, a) ==> (a in mem2.bytes <==> a in mem.bytes))
    && (forall a: nat :: !InRange(target, |on|, a) && a in mem.bytes ==> mem2.bytes[a] == mem.bytes[a])
  }

  /** `memcpy(target, on.data(), on.size())`. */
  function Copy(bytes: map<nat, byte>, target: nat, on: seq<byte>): (r: map<nat, byte>)
    ensures forall a: nat :: InRange(target, |on|, a) ==> a in r && r[a] == on[a - target]
    ensures forall a: nat :: !InRange(target, |on|, a) ==> (a in r <==> a in bytes)
    ensures forall a: nat :: !InRange(target, |on|, a) && a in bytes ==> r[a] == bytes[a]
  {
    map a | a in bytes.Keys + (set a: nat | target <= a < target + |on| && InRange(target, |on|, a)) ::
      if target <= a < target + |on| then on[a - target] else bytes[a]
  }

  /** What a call leaves behind: its result and the memory after it, or an
      access violation, which ends the process. */
  datatype Outcome = Outcome(ok: bool, memory: Memory) | AccessViolation

  /** `memcpy(target, on.data(), on.size())` under the protection in force:
      it faults unless every page it stores to allows writing. */
  function Store(mem: Memory, target: nat, on: seq<byte>): (o: Outcome)
    requires |on| > 0
    ensures o.AccessViolation? <==> exists page :: InSpan(target, |on|, page) && !Writable(ProtectionOf(mem.protection, page))
    ensures o.Outcome? ==> o.ok && o.memory.protection == mem.protection && Written(mem, o.memory, target, on)
  {
    if forall page | page in Span(target, |on|) :: Writable(ProtectionOf(mem.protection, page)) then
      Outcome(true, Memory(Copy(mem.bytes, target, on), mem.protection))
    else
      AccessViolation
  }

  /** `write_data` as written. The guard is declared in the initializer of
      the `if` statement, so it is destroyed at the end of that statement:
      by the time `memcpy` runs, the destructor has already written the
      saved protection back over the range. The copy therefore runs under
      the restored protection, which on every page of the range is the
      first page's old one, and faults unless that protection allows
      writing. When the system refuses the change nothing happens. */
  function WriteData(mem: Memory, target: nat, on: seq<byte>, granted: bool): (o: Outcome)
    requires 0 < |on| < DwordLimit
    ensures !granted ==> o == Outcome(false, mem)
    ensures granted ==> (o.AccessViolation? <==> !Writable(ProtectionOf(mem.protection, FirstPage(target))))
    ensures granted && o.Outcome? ==>
      && o.ok
      && Written(mem, o.memory, target, on)
      && RestoredAsWritten(mem.protection, o.memory.protection, target, |on|)
      && (SameProtection(o.memory.protection, mem.protection) <==> UniformSpan(mem.protection, target, |on|))
  {
    var scope := Acquire(mem.protection, target, |on|, granted);
    if !scope.guard.ok then Outcome(false, mem)
    else
      GuardScopeAsWritten(mem.protection, target, |on|, granted);
      PagesOrdered(target, |on|);
      Store(Memory(mem.bytes, Release(scope.guard, scope.protection)), target, on)
  }

  /** `write_data` as intended: the guard held across the copy, restoring
      each page to its own old protection. It never faults; when the system
      refuses the change nothing happens; otherwise the range holds `on`,
      every other byte is as it was, and every page's protection is back to
      its old value. */
  function WriteDataGuarded(mem: Memory, target: nat, on: seq<byte>, granted: bool): (o: Outcome)
    requires 0 < |on| < DwordLimit
    ensures o.Outcome?
    ensures o.ok == granted
    ensures !o.ok ==> o.memory == mem
    ensures o.ok ==> Written(mem, o.memory, target, on)
    ensures SameProtection(o.memory.protection, mem.protection)
  {
    var scope := AcquirePages(mem.protection, target, |on|, granted);
    if !scope.guard.ok then Outcome(false, mem)
    else
      PageGuardRestores(mem.protection, target, |on|, granted);
      var stored := Store(Memory(mem.bytes, scope.protection), target, on);
      Outcome(true, Memory(stored.memory.bytes, ReleasePages(scope.guard, scope.protection)))
  }

  /** A one-byte patch into an executable, read-only code page: the system
      grants the change, yet the copy runs after the guard has put
      `PAGE_EXECUTE_READ` back, and faults. With the guard held across the
      copy the same write succeeds. */
  lemma WriteDataFaultsOnCode()
    ensures var mem := Memory(map[0x1010 := 0x90], map[1 := PageExecuteRead]);
      && WriteData(mem, 0x1010, [0xCC], true).AccessViolation?
      && WriteDataGuarded(mem, 0x1010, [0xCC], true).ok
  {
    assert FirstPage(0x1010) == 1;
  }

  /** Everything `apply` reads: the image headers for a file-offset patch,
      and the bytes `compare_data` looks at. */
  ghost predicate ApplyReads(mem: Memory, base: nat, p: Patch, h: ImageHeaders) {
    && HeadersReadable(h)
    && (ResolveAddress(base, p, h) != 0 && p.off != [] ==> CompareReads(mem, ResolveAddress(base, p, h), p))
  }

  /** The bytes at `target` are neither the original nor the replacement. */
  ghost predicate Mismatch(mem: Memory, target: nat, p: Patch)
    requires CompareReads(mem, target, p)
  {
    p.off != [] && Live(mem, target, |p.off|) != p.off
      && !(p.on != [] && Live(mem, target, |p.on|) == p.on)
  }

  /** `apply`: fails without touching memory when the address resolves to
      null or the bytes there match neither side; a validation-only patch
      (no `on`) succeeds without touching memory; otherwise it is the write
      as written: refused, faulting when the first page's old protection
      does not allow writing, or done with the range's protection restored
      as the guard as written restores it. */
  function Apply(mem: Memory, base: nat, p: Patch, h: ImageHeaders, granted: bool): (o: Outcome)
    requires ApplyReads(mem, base, p, h)
    requires |p.on| < DwordLimit
    ensures var t := ResolveAddress(base, p, h);
      && (t == 0 ==> o == Outcome(false, mem))
      && (t != 0 && p.off != [] && Mismatch(mem, t, p) ==> o == Outcome(false, mem))
      && (t != 0 && !(p.off != [] && Mismatch(mem, t, p)) && p.on == [] ==> o == Outcome(true, mem))
      && (t != 0 && !(p.off != [] && Mismatch(mem, t, p)) && p.on != [] ==>
            && (!granted ==> o == Outcome(false, mem))
            && (granted ==> (o.AccessViolation? <==> !Writable(ProtectionOf(mem.protection, FirstPage(t)))))
            && (granted && o.Outcome? ==>
                  (o.ok && Written(mem, o.memory, t, p.on)
                   && RestoredAsWritten(mem.protection, o.memory.protection, t, |p.on|))))
  {
    var t := ResolveAddress(base, p, h);
    if t == 0 then Outcome(false, mem)
    else if p.off != [] && !CompareData(mem, t, p) then Outcome(false, mem)
    else if p.on == [] then Outcome(true, mem)
    else WriteData(mem, t, p.on, granted)
  }

  /** A write of the bytes a range already holds changes no byte. */
  lemma WrittenSame(mem: Memory, mem2: Memory, target: nat, on: seq<byte>)
    requires Mapped(mem, target, |on|)
    requires Live(mem, target, |on|) == on
    requires Written(mem, mem2, target, on)
    ensures mem2.bytes == mem.bytes
  {
    forall a: nat | InRange(target, |on|, a)
      ensures a in mem.bytes && a in mem2.bytes && mem2.bytes[a] == mem.bytes[a]
    {
      assert Live(mem, target, |on|)[a - target] == mem.bytes[target + (a - target)];
      assert Live(mem2, target, |on|)[a - target] == mem2.bytes[target + (a - target)];
    }
    assert mem2.bytes.Keys == mem.bytes.Keys;
  }

  /** After a write every address readable before still is. */
  lemma WrittenKeepsMapped(mem: Memory, mem2: Memory, target: nat, on: seq<byte>, n: nat)
    requires Written(mem, mem2, target, on)
    requires Mapped(mem, target, n)
    ensures Mapped(mem2, target, n)
  {
    forall a | InRange(target, n, a)
      ensures a in mem2.bytes
    {
      if !InRange(target, |on|, a) {
        assert a in mem.bytes;
      }
    }
  }

  /** Applying a patch that has just been applied never faults, succeeds
      again whenever the write is allowed, and changes no byte: the second
      pass sees the replacement bytes and takes them for "already applied",
      and the first page of the range has the same protection as the first
      time, which the first write showed to allow writing. */
  lemma ApplyIdempotent(mem: Memory, base: nat, p: Patch, h: ImageHeaders, granted: bool, granted2: bool)
    requires ApplyReads(mem, base, p, h)
    requires |p.on| < DwordLimit
    requires Apply(mem, base, p, h, granted).Outcome? && Apply(mem, base, p, h, granted).ok
    ensures var mem2 := Apply(mem, base, p, h, granted).memory;
      && ApplyReads(mem2, base, p, h)
      && Apply(mem2, base, p, h, granted2).Outcome?
      && (granted2 || p.on == [] ==> Apply(mem2, base, p, h, granted2).ok)
      && Apply(mem2, base, p, h, granted2).memory.bytes == mem2.bytes
  {
    var mem2 := Apply(mem, base, p, h, granted).memory;
    var t := ResolveAddress(base, p, h);
    if p.on != [] {
      assert t != 0 && granted;
      assert Written(mem, mem2, t, p.on);
      if p.off != [] {
        WrittenKeepsMapped(mem, mem2, t, p.on, |p.off|);
      }
      assert CompareReads(mem2, t, p);
      assert ApplyReads(mem2, base, p, h);
      assert p.off != [] ==> CompareData(mem2, t, p);
      PagesOrdered(t, |p.on|);
      assert ProtectionOf(mem2.protection, FirstPage(t)) == ProtectionOf(mem.protection, FirstPage(t));
      var o2 := Apply(mem2, base, p, h, granted2);
      if granted2 {
        WrittenSame(mem2, o2.memory, t, p.on);
      }
    }
  }
}
