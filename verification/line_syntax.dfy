/** The patch-line grammar written out: the inverse of `read_line` on the
    patches it can produce, with upper-case hex and a quoted target. */
module LineSyntax {
  import opened Prelude
  import opened CharConv
  import opened ErrorHandler
  import opened Parser

  /** Splitting the space-joined pieces gives back the pieces, when none of
      them contains the delimiter: the other half of `SplitOn`'s inverse. */
  lemma {:induction false} SplitOnJoin(parts: seq<string>, d: char)
    requires |parts| >= 1
    requires forall i :: 0 <= i < |parts| ==> d !in parts[i]
    ensures SplitOn(Join(parts, d), d) == parts
    decreases |parts|
  {
    var s := Join(parts, d);
    var a := parts[0];
    assert forall j :: 0 <= j < |a| ==> a[j] != d;
    if |parts| == 1 {
      assert Find(s, d, 0).None?;
    } else {
      var rest := Join(parts[1..], d);
      assert s == a + [d] + rest;
      assert forall j :: 0 <= j < |a| ==> s[j] == a[j];
      assert s[|a|] == d;
      assert Find(s, d, 0) == Some(|a|);
      assert s[..|a|] == a;
      assert s[|a| + 1..] == rest;
      SplitOnJoin(parts[1..], d);
    }
  }

  /** A well-formed token list: non-empty pieces without spaces. */
  predicate Tokens(tokens: seq<string>) {
    forall i :: 0 <= i < |tokens| ==> tokens[i] != [] && ' ' !in tokens[i]
  }

  /** A line with a quoted target followed by space-separated tokens. */
  function QuotedLine(target: string, tokens: seq<string>): string {
    "\"" + target + "\" " + Join(tokens, ' ')
  }

  /** On a quoted line, the target is read back exactly and the remaining
      arguments are exactly the tokens. */
  lemma QuotedLineSplits(target: string, tokens: seq<string>)
    requires '"' !in target && |tokens| >= 1 && Tokens(tokens)
    ensures !IsBlankOrComment(QuotedLine(target, tokens))
    ensures ReadTarget(QuotedLine(target, tokens)) == Ok(TargetToken(target, |target| + 2))
    ensures Arguments(QuotedLine(target, tokens)[|target| + 2..]) == tokens
  {
    var line := QuotedLine(target, tokens);
    assert line[0] == '"';
    QuotedTarget(target, tokens);
    SpacedArguments(tokens);
  }

  /** The target of a quoted line ends at the closing quote, and what follows
      it is a space and the joined tokens. */
  lemma QuotedTarget(target: string, tokens: seq<string>)
    requires '"' !in target
    ensures ReadTarget(QuotedLine(target, tokens)) == Ok(TargetToken(target, |target| + 2))
    ensures QuotedLine(target, tokens)[|target| + 2..] == [' '] + Join(tokens, ' ')
  {
    var line := QuotedLine(target, tokens);
    var k := |target| + 1;
    assert line[0] == '"' && line[k] == '"';
    assert line[1..][k - 1] == '"';
    assert forall j :: 1 <= j < k ==> line[j] == target[j - 1];
    assert line[1..k] == target;
    assert line[k + 1..] == [' '] + Join(tokens, ' ');
  }

  /** Splitting a space followed by joined tokens on spaces and dropping the
      empty pieces gives back the tokens. */
  lemma SpacedArguments(tokens: seq<string>)
    requires |tokens| >= 1 && Tokens(tokens)
    ensures Arguments([' '] + Join(tokens, ' ')) == tokens
  {
    SplitOnJoin([[]] + tokens, ' ');
    assert Join([[]] + tokens, ' ') == [] + [' '] + Join(tokens, ' ');
    assert [] + [' '] + Join(tokens, ' ') == [' '] + Join(tokens, ' ');
    assert DropEmpty([[]] + tokens) == DropEmpty(tokens);
    DropEmptyKeeps(tokens);
  }

  lemma {:induction false} DropEmptyKeeps(tokens: seq<string>)
    requires forall i :: 0 <= i < |tokens| ==> tokens[i] != []
    ensures DropEmpty(tokens) == tokens
    decreases |tokens|
  {
    if |tokens| > 0 {
      DropEmptyKeeps(tokens[1..]);
      assert tokens == [tokens[0]] + tokens[1..];
    }
  }

  /** The offset token: `F+` for a file offset, then `{:X}` digits. */
  function OffsetText(p: Patch): string {
    (if p.kind == File then "F+" else "") + FormatUpperHex(p.address)
  }

  /** The on-bytes token: `-` for none. */
  function OnText(on: seq<byte>): string {
    if on == [] then "-" else EncodeHex(on)
  }

  function PatchTokens(p: Patch): seq<string> {
    [OffsetText(p), OnText(p.on)] + (if p.off == [] then [] else [EncodeHex(p.off)])
  }

  /** Writes a patch as one line of the grammar. */
  function Serialize(p: Patch): string {
    QuotedLine(p.target, PatchTokens(p))
  }

  /** The patches a line can describe (provenance is stamped later). */
  predicate Serializable(p: Patch) {
    && '"' !in p.target
    && (p.kind == Absolute <==> p.target == "-")
    && p.address < UintptrLimit
    && p.line == 0 && p.file == ""
  }

  lemma TokensOfPatch(p: Patch)
    ensures Tokens(PatchTokens(p))
  {
    var digits := FormatUpperHex(p.address);
    assert forall i :: 0 <= i < |digits| ==> digits[i] != ' ';
    assert ' ' !in digits;
    var o := OffsetText(p);
    assert ' ' !in o by {
      if p.kind == File {
        assert o == "F+" + digits;
        assert forall i :: 2 <= i < |o| ==> o[i] == digits[i - 2];
      }
    }
    forall b: seq<byte> | b != [] ensures ' ' !in EncodeHex(b) && EncodeHex(b) != [] {
      var e := EncodeHex(b);
      forall j | 0 <= j < |e| ensures e[j] != ' ' {
        if j % 2 == 0 {
          assert e[2 * (j / 2)] == FormatByte(b[j / 2])[0];
        } else {
          assert e[2 * (j / 2) + 1] == FormatByte(b[j / 2])[1];
        }
      }
    }
  }

  /** The offset token reads back as the patch's offset and kind (before
      the target `-` forces `absolute`). */
  lemma ReadOffsetPlain(digits: string)
    requires |digits| > 0 && AllHexDigits(digits) && HexValue(digits) < UintptrLimit
    requires !HasFilePrefix(digits)
    ensures ReadOffset(digits) == Ok(OffsetToken(Rva, HexValue(digits)))
  {
    assert OffsetDigits(digits) == digits;
  }

  lemma ReadOffsetFile(digits: string)
    requires |digits| > 0 && AllHexDigits(digits) && HexValue(digits) < UintptrLimit
    ensures ReadOffset("F+" + digits) == Ok(OffsetToken(File, HexValue(digits)))
  {
    var o := "F+" + digits;
    assert HasFilePrefix(o);
    assert o[2..] == digits;
    assert OffsetDigits(o) == digits;
  }

  lemma ReadOffsetText(p: Patch)
    requires p.address < UintptrLimit
    ensures ReadOffset(OffsetText(p)) == Ok(OffsetToken(if p.kind == File then File else Rva, p.address))
  {
    var digits := FormatUpperHex(p.address);
    if p.kind == File {
      ReadOffsetFile(digits);
    } else {
      assert !HasFilePrefix(digits) by {
        if |digits| >= 2 { assert IsUpperHexDigit(digits[1]); }
      }
      ReadOffsetPlain(digits);
    }
  }

  /** Parsing a written patch gives the patch back; a patch with neither
      bytes to write nor bytes to check is refused as too few arguments. */
  lemma ReadLineSerialize(p: Patch)
    requires Serializable(p)
    ensures ReadLine(Serialize(p)) == if p.on == [] && p.off == [] then Err(InsufficientArgs) else Ok(p)
  {
    TokensOfPatch(p);
    QuotedLineSplits(p.target, PatchTokens(p));
    ReadOffsetText(p);
    ReadDataEncodeHex(p.on);
    ReadDataEncodeHex(p.off);
    assert p.on != [] ==> OnText(p.on) != "-" by {
      if p.on != [] { assert |EncodeHex(p.on)| >= 2; }
    }
  }

  /** A literal `-` as the off-bytes token is not a shorthand: it is an
      odd-length hex string. */
  lemma DashOffBytesRejected(p: Patch)
    requires Serializable(p) && p.off == []
    ensures ReadLine(QuotedLine(p.target, PatchTokens(p) + ["-"])) == Err(BadDataLength)
  {
    var tokens := PatchTokens(p) + ["-"];
    TokensOfPatch(p);
    assert tokens == [OffsetText(p), OnText(p.on), "-"];
    QuotedLineSplits(p.target, tokens);
    ReadOffsetText(p);
    ReadDataEncodeHex(p.on);
    assert ReadData("-") == Err(BadDataLength);
    assert p.on != [] ==> OnText(p.on) != "-" by {
      if p.on != [] { assert |EncodeHex(p.on)| >= 2; }
    }
  }

  /** A fourth token after the target is too many; an offset alone is too
      few. */
  lemma ArgumentCountRejected(p: Patch, extra: string)
    requires Serializable(p) && p.off != [] && extra != [] && ' ' !in extra
    ensures ReadLine(QuotedLine(p.target, PatchTokens(p) + [extra])) == Err(TooManyArgs)
    ensures ReadLine(QuotedLine(p.target, [OffsetText(p)])) == Err(InsufficientArgs)
  {
    TokensOfPatch(p);
    QuotedLineSplits(p.target, PatchTokens(p) + [extra]);
    QuotedLineSplits(p.target, [OffsetText(p)]);
  }
}
