/** The patch-line parser: one text line `<target> <offset> <on> [<off>]`
    becomes a patch or one of the `parser_errors`, and a file's lines fold
    into an ordered patch list or the first real error with its line number. */
module Parser {
  import opened Prelude
  import opened CharConv
  import opened ErrorHandler

  /** `addr_type`: how `address` is turned into a pointer. */
  datatype AddrType = Absolute | Rva | File

  /** `patch_t`. `line` and `file` are provenance; `on` is written, `off` is
      the content expected before writing. */
  datatype Patch = Patch(
    kind: AddrType,
    address: nat,
    line: nat,
    file: string,
    target: string,
    on: seq<byte>,
    off: seq<byte>)

  /** `parse_error_t`: an error and the 1-based line it occurred on
      (0 for errors about the file as a whole). */
  datatype ParseFailure = ParseFailure(error: ParserError, line: nat)

  /** `read_target_result_t`: the target name and where the rest of the
      line starts. */
  datatype TargetToken = TargetToken(name: string, offset: nat)

  /** `read_offset_result_t` */
  datatype OffsetToken = OffsetToken(kind: AddrType, address: nat)

  /** What every successfully parsed patch satisfies. */
  predicate WellFormed(p: Patch) {
    && (p.on != [] || p.off != [])
    && (p.kind == Absolute <==> p.target == "-")
    && p.address < UintptrLimit
  }

  // ---------------------------------------------------------------------
  // Text helpers: `string_view::find` and `views::split` over one character

  /** `s.find(c, from)`: the first position at or after `from` holding `c`. */
  function Find(s: string, c: char, from: nat): (r: Option<nat>)
    ensures r.Some? ==> from <= r.value < |s| && s[r.value] == c
    ensures r.Some? ==> forall j :: from <= j < r.value ==> s[j] != c
    ensures r.None? ==> forall j :: from <= j < |s| ==> s[j] != c
    decreases |s| - from
  {
    if from >= |s| then None
    else if s[from] == c then Some(from)
    else Find(s, c, from + 1)
  }

  /** The inverse of `SplitOn`: the pieces glued back with the delimiter. */
  function Join(parts: seq<string>, d: char): string
  {
    if |parts| == 0 then []
    else if |parts| == 1 then parts[0]
    else parts[0] + [d] + Join(parts[1..], d)
  }

  /** `views::split(d)`: the pieces between delimiters, empty ones included.
      On an empty input `views::split` yields no piece at all where this
      yields one empty piece; the arguments drop empty pieces, so the two
      agree wherever the parser uses them. */
  function SplitOn(s: string, d: char): (r: seq<string>)
    ensures |r| >= 1
    ensures forall i :: 0 <= i < |r| ==> d !in r[i]
    ensures Join(r, d) == s
    decreases |s|
  {
    match Find(s, d, 0)
    case None => [s]
    case Some(k) =>
      var rest := SplitOn(s[k + 1..], d);
      assert s == s[..k] + [d] + s[k + 1..];
      [s[..k]] + rest
  }

  /** `views::filter(!empty)`, keeping order. */
  function DropEmpty(parts: seq<string>): (r: seq<string>)
    ensures forall i :: 0 <= i < |r| ==> r[i] != []
    ensures forall t :: t in r <==> t in parts && t != []
  {
    if |parts| == 0 then []
    else if parts[0] == [] then DropEmpty(parts[1..])
    else [parts[0]] + DropEmpty(parts[1..])
  }

  /** The arguments after the target: split on the space character only
      (a tab stays inside its token) with empty pieces dropped. */
  function Arguments(rest: string): (args: seq<string>)
    ensures forall i :: 0 <= i < |args| ==> args[i] != [] && ' ' !in args[i]
  {
    var pieces := SplitOn(rest, ' ');
    assert forall t :: t in pieces ==> ' ' !in t;
    DropEmpty(pieces)
  }

  // ---------------------------------------------------------------------
  // patch_t::type_name and patch_t::target_name

  /** `patch_t::type_name`: one distinct label per address kind. */
  function TypeName(kind: AddrType): (s: string)
    ensures |s| > 0
  {
    match kind
    case Absolute => "absolute address"
    case Rva => "RVA"
    case File => "file"
  }

  lemma TypeNamesDistinct(k1: AddrType, k2: AddrType)
    ensures TypeName(k1) == TypeName(k2) ==> k1 == k2
  {
  }

  /** `patch_t::target_name`: `0x<ADDR>` for an absolute patch, otherwise
      `'<target>'+0x<ADDR>`. Either way it ends in the address in upper-case
      hex, and those digits read back (as `read_offset` reads them) to the
      address. */
  function TargetName(p: Patch): (s: string)
    ensures var digits := FormatUpperHex(p.address);
      && |digits| + 2 <= |s|
      && s[|s| - |digits| - 2..|s| - |digits|] == "0x"
      && s[|s| - |digits|..] == digits
      && (p.address < UintptrLimit ==> ReadOffset(s[|s| - |digits|..]) == Ok(OffsetToken(Rva, p.address)))
    ensures p.kind != Absolute ==> |p.target| + 1 < |s| && s[0] == '\'' && s[1..|p.target| + 1] == p.target
  {
    var digits := FormatUpperHex(p.address);
    assert !HasFilePrefix(digits) by {
      if |digits| >= 2 { assert IsUpperHexDigit(digits[1]); }
    }
    if p.kind == Absolute then "0x" + digits
    else "'" + p.target + "'+0x" + digits
  }

  // ---------------------------------------------------------------------
  // read_target, read_offset, read_data

  predicate StartsQuoted(line: string) {
    |line| > 0 && line[0] == '"'
  }

  /** `read_target`. A quoted target runs to the next `"` (none: unclosed
      quote); a bare target runs to the first space, not tab (none: too few
      arguments). The rest of the line starts one past the terminator. */
  function ReadTarget(line: string): (r: Result<TargetToken, ParserError>)
    ensures StartsQuoted(line) ==>
      && (r.Err? <==> '"' !in line[1..])
      && (r.Err? ==> r.error == TargetUnclosedQuote)
      && (r.Ok? ==> 2 <= r.value.offset <= |line| && line[r.value.offset - 1] == '"'
                    && r.value.name == line[1..r.value.offset - 1] && '"' !in r.value.name)
    ensures !StartsQuoted(line) ==>
      && (r.Err? <==> ' ' !in line)
      && (r.Err? ==> r.error == InsufficientArgs)
      && (r.Ok? ==> 1 <= r.value.offset <= |line| && line[r.value.offset - 1] == ' '
                    && r.value.name == line[..r.value.offset - 1] && ' ' !in r.value.name)
  {
    var quoted := StartsQuoted(line);
    var start := if quoted then 1 else 0;
    match Find(line, if quoted then '"' else ' ', start)
    case None =>
      if quoted then
        assert forall c :: c in line[1..] ==> c != '"' by {
          forall c | c in line[1..] ensures c != '"' {
            var j :| 0 <= j < |line[1..]| && line[1..][j] == c;
            assert line[1 + j] == c;
          }
        }
        Err(TargetUnclosedQuote)
      else
        Err(InsufficientArgs)
    case Some(end) =>
      assert quoted ==> line[1..][end - 1] == '"';
      Ok(TargetToken(line[start..end], end + 1))
  }

  /** An offset token starting `f+` or `F+` is a file offset. */
  predicate HasFilePrefix(token: string) {
    |token| >= 2 && (token[0] == 'f' || token[0] == 'F') && token[1] == '+'
  }

  /** The part of an offset token `from_chars` is given. */
  function OffsetDigits(token: string): string {
    if HasFilePrefix(token) then token[2..] else token
  }

  /** `read_offset`: the digits must be one or more hex digits, consumed to
      the end, whose value fits in a `uintptr_t`; the kind is `file` with
      the prefix and `rva` without. It never yields `absolute`. */
  function ReadOffset(token: string): (r: Result<OffsetToken, ParserError>)
    ensures var digits := OffsetDigits(token);
      r.Ok? <==> |digits| > 0 && AllHexDigits(digits) && HexValue(digits) < UintptrLimit
    ensures r.Err? ==> r.error == BadOffsetAddress
    ensures r.Ok? ==> AllHexDigits(OffsetDigits(token)) && r.value.address == HexValue(OffsetDigits(token))
    ensures r.Ok? ==> (r.value.kind == File <==> HasFilePrefix(token)) && r.value.kind != Absolute
  {
    var isFile := HasFilePrefix(token);
    var digits := OffsetDigits(token);
    var fc := FromCharsHex(digits, UintptrLimit);
    HexRunAll(digits);
    assert digits[..|digits|] == digits;
    if fc.ec != NoError || fc.ptr != |digits| then
      Err(BadOffsetAddress)
    else
      assert digits[..fc.ptr] == digits;
      Ok(OffsetToken(if isFile then File else Rva, fc.value))
  }

  /** The byte `from_chars` stores for one pair of characters: it reads as
      many digits as there are, so a pair whose second character is not a
      digit yields the value of its first digit alone. */
  function PairValue(hi: char, lo: char): nat
    requires IsHexDigit(hi)
  {
    if IsHexDigit(lo) then DigitValue(hi) * 16 + DigitValue(lo) else DigitValue(hi)
  }

  /** Every pair starts with a hex digit: the only check `read_data` makes. */
  predicate PairsStartHex(hex: string) {
    forall i :: 0 <= i < |hex| / 2 ==> IsHexDigit(hex[2 * i])
  }

  /** `from_chars` on a two-character window starting with a digit succeeds
      with the pair's value, which always fits in a byte. */
  lemma PairDecodes(pair: string)
    requires |pair| == 2 && IsHexDigit(pair[0])
    ensures FromCharsHex(pair, 0x100).ec == NoError
    ensures FromCharsHex(pair, 0x100).value == PairValue(pair[0], pair[1])
  {
    var n := HexRun(pair);
    if IsHexDigit(pair[1]) {
      HexRunAll(pair);
      assert pair[..n] == pair;
      assert pair[..1] + [pair[1]] == pair;
      HexValueSnoc(pair[..1], pair[1]);
      assert HexValue(pair[..1]) == DigitValue(pair[0]) by {
        assert pair[..1][..0] == [];
      }
    } else {
      assert pair[1..][0] == pair[1];
      assert n == 1;
      assert pair[..1][..0] == [];
      assert pair[..1][0] == pair[0];
      assert HexValue(pair[..1]) == DigitValue(pair[0]);
    }
  }

  /** Prepending one decoded pair to a decoded tail decodes the whole. */
  lemma ConsPair(hex: string, b: byte, rest: seq<byte>)
    requires |hex| >= 2 && IsHexDigit(hex[0]) && b == PairValue(hex[0], hex[1])
    requires PairsStartHex(hex[2..]) && |rest| == |hex[2..]| / 2
    requires forall i :: 0 <= i < |rest| ==> rest[i] == PairValue(hex[2..][2 * i], hex[2..][2 * i + 1])
    ensures PairsStartHex(hex)
    ensures forall i :: 0 <= i < |[b] + rest| ==> ([b] + rest)[i] == PairValue(hex[2 * i], hex[2 * i + 1])
  {
    var tail := hex[2..];
    forall i | 0 <= i < |hex| / 2 ensures IsHexDigit(hex[2 * i]) {
      if i > 0 { assert hex[2 * i] == tail[2 * (i - 1)]; }
    }
    forall i | 1 <= i < |[b] + rest| ensures ([b] + rest)[i] == PairValue(hex[2 * i], hex[2 * i + 1]) {
      assert hex[2 * i] == tail[2 * (i - 1)] && hex[2 * i + 1] == tail[2 * (i - 1) + 1];
    }
  }

  /** A bad pair in the tail is a bad pair of the whole. */
  lemma TailBadPair(hex: string)
    requires |hex| >= 2 && !PairsStartHex(hex[2..])
    ensures !PairsStartHex(hex)
  {
    var tail := hex[2..];
    var i :| 0 <= i < |tail| / 2 && !IsHexDigit(tail[2 * i]);
    assert tail[2 * i] == hex[2 * (i + 1)];
  }

  /** Decodes `hex` pair by pair. */
  function DecodePairs(hex: string): (r: Result<seq<byte>, ParserError>)
    requires |hex| % 2 == 0
    ensures r.Ok? <==> PairsStartHex(hex)
    ensures r.Err? ==> r.error == BadDataBytes
    ensures r.Ok? ==> |r.value| == |hex| / 2
    ensures r.Ok? ==>
      forall i :: 0 <= i < |r.value| ==> r.value[i] == PairValue(hex[2 * i], hex[2 * i + 1])
    decreases |hex|
  {
    if |hex| == 0 then Ok([])
    else
      var pair := hex[..2];
      var fc := FromCharsHex(pair, 0x100);
      assert IsHexDigit(hex[0]) ==> fc.ec == NoError by {
        if IsHexDigit(hex[0]) { PairDecodes(pair); }
      }
      if fc.ec != NoError then
        assert !IsHexDigit(hex[2 * 0]);
        Err(BadDataBytes)
      else
        match DecodePairs(hex[2..])
        case Err(e) =>
          TailBadPair(hex);
          Err(e)
        case Ok(rest) =>
          PairDecodes(pair);
          ConsPair(hex, fc.value as byte, rest);
          Ok([fc.value as byte] + rest)
  }

  /** `read_data`: an odd-length token is a length error; otherwise each
      pair becomes one byte, and the token is rejected only when some pair's
      FIRST character is not a hex digit. */
  function ReadData(hex: string): (r: Result<seq<byte>, ParserError>)
    ensures |hex| % 2 != 0 ==> r == Err(BadDataLength)
    ensures |hex| % 2 == 0 ==> (r.Ok? <==> PairsStartHex(hex))
    ensures |hex| % 2 == 0 && r.Err? ==> r.error == BadDataBytes
    ensures r.Ok? ==> |r.value| == |hex| / 2 && PairsStartHex(hex)
    ensures r.Ok? ==>
      forall i :: 0 <= i < |r.value| ==> r.value[i] == PairValue(hex[2 * i], hex[2 * i + 1])
  {
    if |hex| % 2 != 0 then Err(BadDataLength) else DecodePairs(hex)
  }

  /** The two-digit upper-case hex text of a byte sequence, no separators. */
  function EncodeHex(bytes: seq<byte>): (s: string)
    ensures |s| == 2 * |bytes|
    ensures forall i :: 0 <= i < |bytes| ==>
      s[2 * i] == FormatByte(bytes[i])[0] && s[2 * i + 1] == FormatByte(bytes[i])[1]
  {
    if |bytes| == 0 then []
    else
      var tail := EncodeHex(bytes[1..]);
      var s := FormatByte(bytes[0]) + tail;
      assert forall i :: 1 <= i < |bytes| ==> bytes[i] == bytes[1..][i - 1];
      assert forall k :: 2 <= k < |s| ==> s[k] == tail[k - 2];
      s
  }

  /** Decoding the two-digit encoding of any byte sequence gives it back. */
  lemma ReadDataEncodeHex(bytes: seq<byte>)
    ensures ReadData(EncodeHex(bytes)) == Ok(bytes)
  {
    var hex := EncodeHex(bytes);
    assert PairsStartHex(hex) by {
      forall i | 0 <= i < |hex| / 2 ensures IsHexDigit(hex[2 * i]) {
        assert hex[2 * i] == FormatByte(bytes[i])[0];
      }
    }
    assert |hex| % 2 == 0;
    var r := ReadData(hex);
    assert r.Ok?;
    var v := r.value;
    assert |v| == |bytes|;
    forall i | 0 <= i < |v| ensures v[i] == bytes[i] {
      var f := FormatByte(bytes[i]);
      assert hex[2 * i] == f[0] && hex[2 * i + 1] == f[1];
      assert v[i] == PairValue(hex[2 * i], hex[2 * i + 1]);
      assert PairValue(f[0], f[1]) == bytes[i];
    }
    assert v == bytes;
  }

  // ---------------------------------------------------------------------
  // read_line

  /** `parse_line_empty`: empty, `#` in column 0 (an indented `#` is not a
      comment), or nothing but spaces and tabs. */
  predicate IsBlankOrComment(line: string) {
    || |line| == 0
    || line[0] == '#'
    || forall i :: 0 <= i < |line| ==> line[i] == ' ' || line[i] == '\t'
  }

  /** `read_line`. Checks run in the source's order: blank/comment, target,
      argument count, offset, on-bytes (`-` means none), off-bytes (no `-`
      shorthand), and finally a patch with nothing to write or check. */
  function ReadLine(line: string): (r: Result<Patch, ParserError>)
    ensures r == Err(LineEmpty) <==> IsBlankOrComment(line)
    ensures r.Ok? ==> WellFormed(r.value) && r.value.line == 0 && r.value.file == ""
    ensures !IsBlankOrComment(line) && ReadTarget(line).Err? ==> r == Err(ReadTarget(line).error)
    ensures !IsBlankOrComment(line) && ReadTarget(line).Ok? ==>
      var args := Arguments(line[ReadTarget(line).value.offset..]);
      && (|args| < 2 ==> r == Err(InsufficientArgs))
      && (|args| > 3 ==> r == Err(TooManyArgs))
  {
    if IsBlankOrComment(line) then Err(LineEmpty)
    else
      match ReadTarget(line)
      case Err(e) => Err(e)
      case Ok(t) =>
        var args := Arguments(line[t.offset..]);
        if |args| < 2 then Err(InsufficientArgs)
        else if |args| > 3 then Err(TooManyArgs)
        else
          match ReadOffset(args[0])
          case Err(e) => Err(e)
          case Ok(o) =>
            var kind := if t.name == "-" then Absolute else o.kind;
            var on := if args[1] == "-" then Ok([]) else ReadData(args[1]);
            match on
            case Err(e) => Err(e)
            case Ok(onBytes) =>
              var off := if |args| > 2 then ReadData(args[2]) else Ok([]);
              match off
              case Err(e) => Err(e)
              case Ok(offBytes) =>
                if onBytes == [] && offBytes == [] then Err(InsufficientArgs)
                else Ok(Patch(kind, o.address, 0, "", t.name, onBytes, offBytes))
  }

  // ---------------------------------------------------------------------
  // read_file's line loop

  /** A per-line parser; `read_file` uses `ReadLine`. The loop is stated
      over any such parser so that its proofs do not depend on how a single
      line is parsed. */
  type LineParser = string -> Result<Patch, ParserError>

  /** A line the file loop gets past: it parses, or it is skipped. */
  predicate Accepted(parse: LineParser, line: string) {
    parse(line).Ok? || parse(line) == Err(LineEmpty)
  }

  /** The lines of a file, numbered `first + 1` onward: each parsed patch is
      stamped with its line number and the file name; `parse_line_empty`
      lines are skipped; the first other error stops the loop. */
  function ReadLines(parse: LineParser, lines: seq<string>, first: nat, name: string)
    : (r: Result<seq<Patch>, ParseFailure>)
    ensures r.Ok? <==> forall i :: 0 <= i < |lines| ==> Accepted(parse, lines[i])
    ensures r.Err? ==> first < r.error.line <= first + |lines| && r.error.error != LineEmpty
    ensures r.Err? ==> parse(lines[r.error.line - first - 1]) == Err(r.error.error)
    ensures r.Err? ==> forall i :: 0 <= i < r.error.line - first - 1 ==> Accepted(parse, lines[i])
    decreases |lines|
  {
    if |lines| == 0 then Ok([])
    else
      var number := first + 1;
      var rest := ReadLines(parse, lines[1..], number, name);
      assert forall i :: 1 <= i < |lines| ==> lines[i] == lines[1..][i - 1];
      match parse(lines[0])
      case Err(e) =>
        if e == LineEmpty then rest else Err(ParseFailure(e, number))
      case Ok(p) =>
        match rest
        case Err(f) => Err(f)
        case Ok(ps) => Ok([p.(line := number, file := name)] + ps)
  }

  /** Each patch of `ps` is the parse of one of `lines` (numbered from
      `first + 1`), stamped with that line's number and `name`. */
  ghost predicate FromLines(parse: LineParser, ps: seq<Patch>, lines: seq<string>, first: nat, name: string) {
    forall j :: 0 <= j < |ps| ==>
      && first < ps[j].line <= first + |lines|
      && parse(lines[ps[j].line - first - 1]).Ok?
      && ps[j] == parse(lines[ps[j].line - first - 1]).value.(line := ps[j].line, file := name)
  }

  /** Patches appear in line order. */
  ghost predicate InLineOrder(ps: seq<Patch>) {
    forall j, k :: 0 <= j < k < |ps| ==> ps[j].line < ps[k].line
  }

  /** Every parsed line contributes a patch. */
  ghost predicate CoversLines(parse: LineParser, ps: seq<Patch>, lines: seq<string>, first: nat) {
    forall i :: 0 <= i < |lines| && parse(lines[i]).Ok? ==>
      exists j :: 0 <= j < |ps| && ps[j].line == first + i + 1
  }

  /** `ps` is exactly the patches of the parsed lines among `lines`, stamped,
      in line order. */
  ghost predicate StampedFrom(parse: LineParser, ps: seq<Patch>, lines: seq<string>, first: nat, name: string) {
    FromLines(parse, ps, lines, first, name) && InLineOrder(ps) && CoversLines(parse, ps, lines, first)
  }

  /** Skipping a line that did not parse keeps the stamping of the rest. */
  lemma StampedSkip(parse: LineParser, ps: seq<Patch>, lines: seq<string>, first: nat, name: string)
    requires |lines| > 0 && parse(lines[0]).Err?
    requires StampedFrom(parse, ps, lines[1..], first + 1, name)
    ensures StampedFrom(parse, ps, lines, first, name)
  {
    var tail := lines[1..];
    forall j | 0 <= j < |ps| ensures lines[ps[j].line - first - 1] == tail[ps[j].line - (first + 1) - 1] { }
    forall i | 0 <= i < |lines| && parse(lines[i]).Ok?
      ensures exists j :: 0 <= j < |ps| && ps[j].line == first + i + 1
    {
      assert lines[i] == tail[i - 1];
    }
  }

  /** A parsed first line, stamped, goes in front of the rest. */
  lemma StampedCons(parse: LineParser, ps: seq<Patch>, lines: seq<string>, first: nat, name: string)
    requires |lines| > 0 && parse(lines[0]).Ok?
    requires StampedFrom(parse, ps, lines[1..], first + 1, name)
    ensures StampedFrom(parse, [parse(lines[0]).value.(line := first + 1, file := name)] + ps, lines, first, name)
  {
    var head := parse(lines[0]).value.(line := first + 1, file := name);
    FromLinesCons(parse, head, ps, lines, first, name);
    OrderCons(head, ps, first);
    CoversCons(parse, head, ps, lines, first);
  }

  lemma FromLinesCons(parse: LineParser, head: Patch, ps: seq<Patch>, lines: seq<string>, first: nat, name: string)
    requires |lines| > 0 && parse(lines[0]).Ok? && head == parse(lines[0]).value.(line := first + 1, file := name)
    requires FromLines(parse, ps, lines[1..], first + 1, name)
    ensures FromLines(parse, [head] + ps, lines, first, name)
  {
    var all := [head] + ps;
    forall j | 1 <= j < |all|
      ensures all[j] == ps[j - 1]
      ensures lines[all[j].line - first - 1] == lines[1..][ps[j - 1].line - (first + 1) - 1]
    { }
  }

  lemma OrderCons(head: Patch, ps: seq<Patch>, first: nat)
    requires head.line == first + 1 && InLineOrder(ps)
    requires forall j :: 0 <= j < |ps| ==> first + 1 < ps[j].line
    ensures InLineOrder([head] + ps)
  {
    var all := [head] + ps;
    forall j, k | 0 <= j < k < |all| ensures all[j].line < all[k].line {
      assert all[k] == ps[k - 1];
      if j > 0 { assert all[j] == ps[j - 1]; }
    }
  }

  lemma CoversCons(parse: LineParser, head: Patch, ps: seq<Patch>, lines: seq<string>, first: nat)
    requires |lines| > 0 && head.line == first + 1
    requires CoversLines(parse, ps, lines[1..], first + 1)
    ensures CoversLines(parse, [head] + ps, lines, first)
  {
    var all := [head] + ps;
    forall i | 0 <= i < |lines| && parse(lines[i]).Ok?
      ensures exists j :: 0 <= j < |all| && all[j].line == first + i + 1
    {
      if i == 0 {
        assert all[0].line == first + 1;
      } else {
        assert lines[i] == lines[1..][i - 1];
        var j :| 0 <= j < |ps| && ps[j].line == (first + 1) + (i - 1) + 1;
        assert all[j + 1].line == first + i + 1;
      }
    }
  }

  lemma {:induction false} ReadLinesStamped(parse: LineParser, lines: seq<string>, first: nat, name: string)
    requires ReadLines(parse, lines, first, name).Ok?
    ensures StampedFrom(parse, ReadLines(parse, lines, first, name).value, lines, first, name)
    decreases |lines|
  {
    if |lines| > 0 {
      var tail := lines[1..];
      ReadLinesStamped(parse, tail, first + 1, name);
      var rest := ReadLines(parse, tail, first + 1, name).value;
      if parse(lines[0]).Err? {
        StampedSkip(parse, rest, lines, first, name);
      } else {
        StampedCons(parse, rest, lines, first, name);
      }
    }
  }

  /** Where `read_file` gets its lines from: the file may be missing or fail
      to open; otherwise its lines as `getline` returns them. */
  datatype FileSource = Missing | Unopenable | Contents(lines: seq<string>)

  /** `read_file`, `name` being the path's file-name component. */
  function ReadFile(name: string, src: FileSource): (r: Result<seq<Patch>, ParseFailure>)
    ensures src.Missing? ==> r == Err(ParseFailure(FileNotFound, 0))
    ensures src.Unopenable? ==> r == Err(ParseFailure(FileOpenFail, 0))
    ensures src.Contents? ==>
      (r.Ok? <==> forall i :: 0 <= i < |src.lines| ==> ReadLine(src.lines[i]).Ok? || IsBlankOrComment(src.lines[i]))
    ensures src.Contents? && r.Err? ==>
      && 1 <= r.error.line <= |src.lines|
      && r.error.error != LineEmpty
      && ReadLine(src.lines[r.error.line - 1]) == Err(r.error.error)
      && forall i :: 0 <= i < r.error.line - 1 ==> ReadLine(src.lines[i]).Ok? || IsBlankOrComment(src.lines[i])
  {
    match src
    case Missing => Err(ParseFailure(FileNotFound, 0))
    case Unopenable => Err(ParseFailure(FileOpenFail, 0))
    case Contents(lines) =>
      assert forall l :: Accepted(ReadLine, l) <==> ReadLine(l).Ok? || IsBlankOrComment(l);
      ReadLines(ReadLine, lines, 0, name)
  }

  /** A successful `read_file` returns exactly the file's parsed lines, in
      order, stamped with their 1-based line number and the file name; all of
      them are well formed. */
  lemma ReadFileStamped(name: string, lines: seq<string>)
    requires ReadFile(name, Contents(lines)).Ok?
    ensures StampedFrom(ReadLine, ReadFile(name, Contents(lines)).value, lines, 0, name)
    ensures forall p :: p in ReadFile(name, Contents(lines)).value ==> WellFormed(p) && p.file == name
  {
    var ps := ReadFile(name, Contents(lines)).value;
    assert ps == ReadLines(ReadLine, lines, 0, name).value;
    ReadLinesStamped(ReadLine, lines, 0, name);
    assert FromLines(ReadLine, ps, lines, 0, name);
    forall p | p in ps ensures WellFormed(p) && p.file == name {
      var j :| 0 <= j < |ps| && ps[j] == p;
      var q := ReadLine(lines[p.line - 1]).value;
      assert p == q.(line := p.line, file := name);
    }
  }
}
