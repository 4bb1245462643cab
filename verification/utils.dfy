/** The pure helpers of `meanp::utils`: hex formatting of byte data for the
    log, the line rules of the `patches.txt` config file, the concatenation
    of every patch file's patches, and the all-or-nothing export lookup. */
module Utils {
  import opened Prelude
  import opened CharConv
  import opened Parser

  /* ---------------- format_hex ---------------- */

  /** `format_hex`: each byte as two upper-case hex digits (`{:02X}`),
      single spaces between bytes. */
  function FormatHex(data: seq<byte>): (s: string)
    ensures |data| == 0 ==> s == ""
    ensures |data| > 0 ==> |s| == 3 * |data| - 1
    ensures forall i :: 0 <= i < |data| ==>
      s[3 * i] == FormatByte(data[i])[0] && s[3 * i + 1] == FormatByte(data[i])[1]
    ensures forall i :: 0 <= i < |data| - 1 ==> s[3 * i + 2] == ' '
    decreases |data|
  {
    if |data| == 0 then ""
    else if |data| == 1 then FormatByte(data[0])
    else
      var n := |data|;
      var prev := FormatHex(data[..n - 1]);
      var s := prev + " " + FormatByte(data[n - 1]);
      assert forall i :: 0 <= i < n - 1 ==> data[..n - 1][i] == data[i];
      assert forall k :: 0 <= k < |prev| ==> s[k] == prev[k];
      s
  }

  /** The characters of `s` other than `' '`, in order. */
  function StripSpaces(s: string): (r: string)
    ensures ' ' !in r
    ensures |r| <= |s|
    decreases |s|
  {
    if |s| == 0 then ""
    else StripSpaces(s[..|s| - 1]) + (if s[|s| - 1] == ' ' then "" else [s[|s| - 1]])
  }

  lemma {:induction false} StripSpacesAppend(a: string, b: string)
    ensures StripSpaces(a + b) == StripSpaces(a) + StripSpaces(b)
    decreases |b|
  {
    if |b| == 0 {
      assert a + b == a;
    } else {
      var n := |b|;
      assert (a + b)[..|a + b| - 1] == a + b[..n - 1];
      StripSpacesAppend(a, b[..n - 1]);
    }
  }

  /** Two strings of even length that agree on every pair are equal. */
  lemma PairwiseEqual(s: string, t: string, n: nat)
    requires |s| == 2 * n && |t| == 2 * n
    requires forall i :: 0 <= i < n ==> s[2 * i] == t[2 * i] && s[2 * i + 1] == t[2 * i + 1]
    ensures s == t
  {
    forall k | 0 <= k < |s|
      ensures s[k] == t[k]
    {
      var i := k / 2;
      assert k == 2 * i || k == 2 * i + 1;
    }
  }

  lemma EncodeHexSnoc(data: seq<byte>)
    requires |data| > 0
    ensures EncodeHex(data) == EncodeHex(data[..|data| - 1]) + FormatByte(data[|data| - 1])
  {
    var n := |data|;
    var front := EncodeHex(data[..n - 1]);
    var lhs := EncodeHex(data);
    var rhs := front + FormatByte(data[n - 1]);
    forall i | 0 <= i < n
      ensures lhs[2 * i] == rhs[2 * i] && lhs[2 * i + 1] == rhs[2 * i + 1]
    {
      if i < n - 1 {
        assert data[..n - 1][i] == data[i];
        assert rhs[2 * i] == front[2 * i];
        assert rhs[2 * i + 1] == front[2 * i + 1];
      }
    }
    PairwiseEqual(lhs, rhs, n);
  }

  lemma StripByte(b: byte)
    ensures StripSpaces(FormatByte(b)) == FormatByte(b)
  {
    var f := FormatByte(b);
    assert f[..1] == [f[0]];
    assert [f[0]][..0] == [];
    assert StripSpaces([f[0]]) == [f[0]];
    assert f == [f[0], f[1]];
  }

  lemma FormatHexSnoc(data: seq<byte>)
    requires |data| > 1
    ensures FormatHex(data) == (FormatHex(data[..|data| - 1]) + " ") + FormatByte(data[|data| - 1])
  {
  }

  /** With the separators removed, the log form of a byte sequence is the
      data-token form the patch parser reads. */
  lemma {:induction false} FormatHexStripped(data: seq<byte>)
    ensures StripSpaces(FormatHex(data)) == EncodeHex(data)
    decreases |data|
  {
    var n := |data|;
    if n == 1 {
      StripByte(data[0]);
      EncodeHexSnoc(data);
      assert data[..0] == [];
    } else if n > 1 {
      var front := data[..n - 1];
      var prev := FormatHex(front);
      var f := FormatByte(data[n - 1]);
      FormatHexSnoc(data);
      StripSpacesAppend(prev + " ", f);
      StripSpacesAppend(prev, " ");
      assert StripSpaces(" ") == "";
      StripByte(data[n - 1]);
      FormatHexStripped(front);
      EncodeHexSnoc(data);
      calc {
        StripSpaces(FormatHex(data));
        StripSpaces(prev + " ") + StripSpaces(f);
        (StripSpaces(prev) + "") + f;
        { assert StripSpaces(prev) + "" == StripSpaces(prev); }
        EncodeHex(front) + f;
        EncodeHex(data);
      }
    }
  }

  /** So every hex dump in the log can be pasted back, spaces removed, as a
      data token. */
  lemma FormatHexReadsBack(data: seq<byte>)
    ensures ReadData(StripSpaces(FormatHex(data))) == Ok(data)
  {
    FormatHexStripped(data);
    ReadDataEncodeHex(data);
  }

  /* ---------------- collect_files_from_config ---------------- */

  /** `size_t` values wrap at 2^64; `std::string::npos` is the largest. */
  const SizeLimit: nat := 0x1_0000_0000_0000_0000
  const Npos: nat := SizeLimit - 1

  /** A space or tab: what `find_first_not_of(" \t")` skips. */
  predicate IsBlank(c: char) {
    c == ' ' || c == '\t'
  }

  /** A space, tab, CR or LF: what `find_last_not_of(" \t\r\n")` skips. */
  predicate IsTrailing(c: char) {
    c == ' ' || c == '\t' || c == '\r' || c == '\n'
  }

  /** `find_first_not_of(" \t")`; `None` is `npos`. */
  function FirstNonBlank(s: string): (r: Option<nat>)
    ensures r.Some? ==> r.value < |s| && !IsBlank(s[r.value])
    ensures r.Some? ==> forall i :: 0 <= i < r.value ==> IsBlank(s[i])
    ensures r.None? <==> forall i :: 0 <= i < |s| ==> IsBlank(s[i])
    decreases |s|
  {
    if |s| == 0 then None
    else if !IsBlank(s[0]) then Some(0)
    else
      var rest := FirstNonBlank(s[1..]);
      assert forall i :: 1 <= i < |s| ==> s[i] == s[1..][i - 1];
      if rest.None? then None else Some(rest.value + 1)
  }

  /** `find_last_not_of(" \t\r\n")`; `None` is `npos`. */
  function LastNonTrailing(s: string): (r: Option<nat>)
    ensures r.Some? ==> r.value < |s| && !IsTrailing(s[r.value])
    ensures r.Some? ==> forall i :: r.value < i < |s| ==> IsTrailing(s[i])
    ensures r.None? <==> forall i :: 0 <= i < |s| ==> IsTrailing(s[i])
    decreases |s|
  {
    if |s| == 0 then None
    else if !IsTrailing(s[|s| - 1]) then Some(|s| - 1)
    else LastNonTrailing(s[..|s| - 1])
  }

  /** `substr(start, count)`: at most `count` characters from `start`. */
  function Substr(s: string, start: nat, count: nat): string
    requires start <= |s|
  {
    if count < |s| - start then s[start..start + count] else s[start..]
  }

  /** The path one config line names, if any. Empty lines, lines starting
      with `#` or `;`, and lines of only spaces and tabs name none.
      Otherwise the line is cut from its first non-blank character, with
      length `end - start + 1` computed in `size_t`, `end` being the last
      character that is not a space, tab, CR or LF (or `npos`). */
  function ConfigEntry(line: string): (r: Option<string>)
    ensures r.None? <==>
      (|line| == 0 || line[0] == '#' || line[0] == ';' || forall i :: 0 <= i < |line| ==> IsBlank(line[i]))
    ensures r.Some? ==> FirstNonBlank(line).Some? && r.value <= line[FirstNonBlank(line).value..]
  {
    if |line| == 0 || line[0] == '#' || line[0] == ';' then None
    else
      match FirstNonBlank(line)
      case None => None
      case Some(start) =>
        var end := match LastNonTrailing(line) case Some(e) => e case None => Npos;
        Some(Substr(line, start, (end + SizeLimit - start + 1) % SizeLimit))
  }

  /** A config line names no path exactly when it is empty, starts with `#`
      or `;`, or holds only spaces and tabs. When some character is neither
      blank nor CR/LF, the path is the line between its first non-blank and
      its last non-trailing character. */
  lemma ConfigEntryTrims(line: string)
    requires |line| < SizeLimit
    ensures ConfigEntry(line).None? <==>
      (|line| == 0 || line[0] == '#' || line[0] == ';' || forall i :: 0 <= i < |line| ==> IsBlank(line[i]))
    ensures ConfigEntry(line).Some? && (exists k :: 0 <= k < |line| && !IsTrailing(line[k])) ==>
      exists a, b ::
        && 0 <= a < b <= |line|
        && ConfigEntry(line) == Some(line[a..b])
        && !IsBlank(line[a]) && !IsTrailing(line[b - 1])
        && (forall i :: 0 <= i < a ==> IsBlank(line[i]))
        && (forall i :: b <= i < |line| ==> IsTrailing(line[i]))
  {
    if ConfigEntry(line).Some? && (exists k :: 0 <= k < |line| && !IsTrailing(line[k])) {
      var start := FirstNonBlank(line).value;
      var end := LastNonTrailing(line).value;
      assert end >= start;
      assert (end + SizeLimit - start + 1) % SizeLimit == end - start + 1;
      assert Substr(line, start, end - start + 1) == line[start..end + 1];
      assert ConfigEntry(line) == Some(Substr(line, start, end - start + 1));
    }
  }

  /** The `size_t` wrap: when the line's only non-blank characters are CR or
      LF, `end` is `npos` and `end - start + 1` wraps. The path is then
      empty if the line starts with CR or LF, and the rest of the line from
      its first non-blank character otherwise. */
  lemma ConfigEntryLineBreakOnly(line: string)
    requires 0 < |line| < SizeLimit
    requires forall i :: 0 <= i < |line| ==> IsTrailing(line[i])
    requires exists i :: 0 <= i < |line| && !IsBlank(line[i])
    ensures ConfigEntry(line).Some?
    ensures !IsBlank(line[0]) ==> ConfigEntry(line) == Some("")
    ensures IsBlank(line[0]) ==> exists a :: 0 < a < |line| && ConfigEntry(line) == Some(line[a..])
  {
    assert line[0] != '#' && line[0] != ';';
    var start := FirstNonBlank(line).value;
    assert LastNonTrailing(line).None?;
    if start > 0 {
      assert (Npos + SizeLimit - start + 1) % SizeLimit == SizeLimit - start;
      assert ConfigEntry(line) == Some(line[start..]);
    }
  }

  /** What a config line names, if anything. */
  type EntryFn = string -> Option<string>

  /** The config loop: the named paths that exist, in file order.
      Existence is the oracle `exists_`. */
  function CollectLines(entry: EntryFn, lines: seq<string>, exists_: string -> bool): (r: seq<string>)
    ensures forall p :: p in r <==>
      exists i :: 0 <= i < |lines| && entry(lines[i]) == Some(p) && exists_(p)
    decreases |lines|
  {
    if |lines| == 0 then []
    else
      var n := |lines|;
      var prev := CollectLines(entry, lines[..n - 1], exists_);
      assert forall i :: 0 <= i < n - 1 ==> lines[..n - 1][i] == lines[i];
      match entry(lines[n - 1])
      case Some(p) => if exists_(p) then prev + [p] else prev
      case None => prev
  }

  /** The config loop keeps file order: the paths of two consecutive parts
      of the file come out one after the other. */
  lemma {:induction false} CollectLinesAppend(entry: EntryFn, a: seq<string>, b: seq<string>, exists_: string -> bool)
    ensures CollectLines(entry, a + b, exists_) == CollectLines(entry, a, exists_) + CollectLines(entry, b, exists_)
    decreases |b|
  {
    if |b| == 0 {
      assert a + b == a;
    } else {
      var n := |b|;
      assert (a + b)[..|a + b| - 1] == a + b[..n - 1];
      assert (a + b)[|a + b| - 1] == b[n - 1];
      CollectLinesAppend(entry, a, b[..n - 1], exists_);
    }
  }

  /** No line names no path, and one line yields its path exactly when it
      names one that exists. With `CollectLinesAppend` this fixes the loop
      on every file: each existing named path once per line naming it, in
      file order. */
  lemma CollectLinesSingle(entry: EntryFn, line: string, exists_: string -> bool)
    ensures CollectLines(entry, [], exists_) == []
    ensures CollectLines(entry, [line], exists_) ==
      if entry(line).Some? && exists_(entry(line).value) then [entry(line).value] else []
  {
    assert [line][..0] == [];
  }

  /** `collect_files_from_config`: nothing when the config file is missing
      or cannot be opened; otherwise the existing paths its lines name. */
  function CollectFilesFromConfig(config: FileSource, exists_: string -> bool): (r: seq<string>)
    ensures !config.Contents? ==> r == []
    ensures config.Contents? ==> forall p :: p in r <==>
      exists i :: 0 <= i < |config.lines| && ConfigEntry(config.lines[i]) == Some(p) && exists_(p)
  {
    match config
    case Missing => []
    case Unopenable => []
    case Contents(lines) => CollectLines(ConfigEntry, lines, exists_)
  }

  /* ---------------- load_all ---------------- */

  /** A patch file: its file-name component and what reading it yields. */
  datatype PatchFile = PatchFile(name: string, source: FileSource)

  /** `load_all`: every file's patches, file after file; nothing at all as
      soon as one file fails to parse. */
  function LoadAll(files: seq<PatchFile>): (r: Option<seq<Patch>>)
    ensures r.None? <==> exists i :: 0 <= i < |files| && ReadFile(files[i].name, files[i].source).Err?
    decreases |files|
  {
    if |files| == 0 then Some([])
    else
      var rest := LoadAll(files[1..]);
      assert forall i :: 1 <= i < |files| ==> files[i] == files[1..][i - 1];
      match ReadFile(files[0].name, files[0].source)
      case Err(_) => None
      case Ok(ps) =>
        match rest
        case None => None
        case Some(qs) => Some(ps + qs)
  }

  /** Loading two lists of files one after the other is loading their
      concatenation. */
  lemma {:induction false} LoadAllAppend(a: seq<PatchFile>, b: seq<PatchFile>)
    ensures LoadAll(a + b) ==
      if LoadAll(a).Some? && LoadAll(b).Some? then Some(LoadAll(a).value + LoadAll(b).value) else None
    decreases |a|
  {
    if |a| == 0 {
      assert a + b == b;
      assert LoadAll(a) == Some([]);
      if LoadAll(b).Some? {
        assert [] + LoadAll(b).value == LoadAll(b).value;
      }
    } else {
      assert (a + b)[1..] == a[1..] + b;
      assert (a + b)[0] == a[0];
      LoadAllAppend(a[1..], b);
      var head := ReadFile(a[0].name, a[0].source);
      if head.Ok? && LoadAll(a[1..]).Some? && LoadAll(b).Some? {
        assert LoadAll(a) == Some(head.value + LoadAll(a[1..]).value);
        assert LoadAll(a + b) == Some(head.value + (LoadAll(a[1..]).value + LoadAll(b).value));
        assert head.value + (LoadAll(a[1..]).value + LoadAll(b).value)
          == (head.value + LoadAll(a[1..]).value) + LoadAll(b).value;
      }
    }
  }

  /** Loading no file yields no patch, and loading one file yields exactly
      what reading it yields. With `LoadAllAppend` this fixes `load_all` on
      every list: the patches of each file, file after file. */
  lemma LoadAllSingle(f: PatchFile)
    ensures LoadAll([]) == Some([])
    ensures LoadAll([f]) ==
      if ReadFile(f.name, f.source).Ok? then Some(ReadFile(f.name, f.source).value) else None
  {
    assert [f][1..] == [];
    if ReadFile(f.name, f.source).Ok? {
      assert ReadFile(f.name, f.source).value + [] == ReadFile(f.name, f.source).value;
    }
  }

  /** Every loaded patch is well formed and names the file it came from. */
  lemma {:induction false} LoadAllWellFormed(files: seq<PatchFile>)
    requires LoadAll(files).Some?
    ensures forall p :: p in LoadAll(files).value ==>
      WellFormed(p) && exists i :: 0 <= i < |files| && p.file == files[i].name
    decreases |files|
  {
    if |files| > 0 {
      var r := ReadFile(files[0].name, files[0].source);
      assert r.Ok?;
      var ps := r.value;
      if files[0].source.Contents? {
        ReadFileStamped(files[0].name, files[0].source.lines);
      }
      LoadAllWellFormed(files[1..]);
      forall p | p in LoadAll(files).value
        ensures WellFormed(p) && exists i :: 0 <= i < |files| && p.file == files[i].name
      {
        if p in ps {
          assert p.file == files[0].name;
        } else {
          assert p in LoadAll(files[1..]).value;
          var i :| 0 <= i < |files[1..]| && p.file == files[1..][i].name;
          assert p.file == files[i + 1].name;
        }
      }
    }
  }

  /* ---------------- resolve_dll_imports ---------------- */

  /** `GetProcAddress(handle, name)`; 0 when the export is missing. */
  type ProcLookup = (nat, string) -> nat

  function ResolveNames(handle: nat, proc: ProcLookup, names: seq<string>): (r: Option<map<string, nat>>)
    ensures r.Some? <==> forall i :: 0 <= i < |names| ==> proc(handle, names[i]) != 0
    ensures r.Some? ==> r.value.Keys == set n | n in names
    ensures r.Some? ==> forall n :: n in r.value ==> r.value[n] == proc(handle, n)
    decreases |names|
  {
    if |names| == 0 then Some(map[])
    else
      var n := |names|;
      var prev := ResolveNames(handle, proc, names[..n - 1]);
      assert forall i :: 0 <= i < n - 1 ==> names[..n - 1][i] == names[i];
      assert names == names[..n - 1] + [names[n - 1]];
      var last := names[n - 1];
      var addr := proc(handle, last);
      match prev
      case None => None
      case Some(m) =>
        if addr == 0 then None
        else Some(if last in m then m else m[last := addr])
  }

  /** `resolve_dll_imports`: an empty map when the module is not loaded or
      any name is not exported, one entry per requested name otherwise. */
  function ResolveDllImports(handle: nat, proc: ProcLookup, names: seq<string>): (r: map<string, nat>)
    ensures handle == 0 ==> r == map[]
    ensures (exists i :: 0 <= i < |names| && proc(handle, names[i]) == 0) ==> r == map[]
    ensures handle != 0 && (forall i :: 0 <= i < |names| ==> proc(handle, names[i]) != 0) ==>
      r.Keys == (set n | n in names) && forall n :: n in r ==> r[n] == proc(handle, n) && r[n] != 0
  {
    if handle == 0 then map[]
    else
      match ResolveNames(handle, proc, names)
      case None => map[]
      case Some(m) => m
  }
}
