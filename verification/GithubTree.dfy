/** The file list of a GitHub tree (src/github_tree.cpp): the cursor over the answer's text, the
    check of each path, and the loops that collect the entries. */
module GithubTree {
  import opened Common
  import opened JsonText
  import Sha1Hash
  import FtpPath

  const PATH_SIZE: nat := 128
  const WORD64: nat := 0x1_0000_0000_0000_0000
  const UINT32_MAX: nat := 0xFFFF_FFFF

  // ----- Numbers -----

  /** One digit more, in 64-bit arithmetic; a result that got smaller is taken for an overflow. */
  function NextValue(value: nat, digit: nat): Option<nat>
    requires value < WORD64 && digit < 10
  {
    var next := (value * 10 + digit) % WORD64;
    if next < value then None else Some(next)
  }

  function DigitOf(c: char): nat
    requires IsDigit(c)
  {
    c as int - '0' as int
  }

  predicate DigitsOnly(s: string) {
    forall i :: 0 <= i < |s| ==> IsDigit(s[i])
  }

  function Accumulate(digits: string): (r: Option<nat>)
    requires DigitsOnly(digits)
    ensures r.Some? ==> r.value < WORD64
  {
    if digits == "" then Some(0)
    else
      match Accumulate(digits[..|digits| - 1])
      case None => None
      case Some(value) => NextValue(value, DigitOf(digits[|digits| - 1]))
  }

  lemma AccumulateNothing()
    ensures DigitsOnly("") && Accumulate("") == Some(0)
  {
  }

  lemma AccumulateStep(digits: string)
    requires DigitsOnly(digits) && digits != "" && Accumulate(digits[..|digits| - 1]).Some?
    ensures Accumulate(digits) == NextValue(Accumulate(digits[..|digits| - 1]).value, DigitOf(digits[|digits| - 1]))
  {
  }

  function Decimal(digits: string): nat
    requires DigitsOnly(digits)
  {
    if digits == "" then 0 else Decimal(digits[..|digits| - 1]) * 10 + DigitOf(digits[|digits| - 1])
  }

  /** Every number below 2^64 is read exactly, and a result that fits 32 bits is never the remainder
      of a larger number. */
  lemma {:induction false} SizesAreExact(digits: string)
    requires DigitsOnly(digits)
    ensures Decimal(digits) < WORD64 ==> Accumulate(digits) == Some(Decimal(digits))
    ensures Accumulate(digits).Some? && Accumulate(digits).value <= UINT32_MAX ==> Decimal(digits) == Accumulate(digits).value
    decreases |digits|
  {
    if digits == "" {
    } else {
      SizesAreExact(digits[..|digits| - 1]);
    }
  }

  /** In general the overflow test is not enough: a wrapped value may still be larger than the last. */
  lemma OverflowCanGoUnnoticed()
    ensures NextValue(3000000000000000000, 0) == Some(11553255926290448384)
  {
  }

  /** One step notices a wrap exactly when the remainder fell below the value before it. */
  lemma OverflowNoticedIff(value: nat, digit: nat)
    requires value < WORD64 && digit < 10
    ensures NextValue(value, digit) == Some(value * 10 + digit) <==> value * 10 + digit < WORD64
    ensures NextValue(value, digit).None? <==> (value * 10 + digit) % WORD64 < value
  {
  }

  datatype NumberRead = NumberRead(value: nat, next: nat)

  /** number(): plain digits without a leading zero, and no fraction or exponent behind them. */
  function NumberAt(text: string, pos: nat): (r: Option<NumberRead>)
    requires pos <= |text|
    ensures r.Some? ==> pos < r.value.next <= |text|
  {
    var p := Space(text, pos);
    if !DigitAt(text, p) || (text[p] == '0' && DigitAt(text, p + 1)) then None
    else
      var q := Digits(text, p);
      match Accumulate(text[p..q])
      case None => None
      case Some(value) =>
        if At(text, q, '.') || At(text, q, 'e') || At(text, q, 'E') then None else Some(NumberRead(value, q))
  }

  lemma {:induction false} OverflowStays(digits: string, k: nat)
    requires DigitsOnly(digits) && k <= |digits| && Accumulate(digits[..k]).None?
    ensures Accumulate(digits).None?
    decreases |digits|
  {
    hide NextValue;
    if k == |digits| {
      assert digits[..k] == digits;
    } else {
      assert digits[..|digits| - 1][..k] == digits[..k];
      OverflowStays(digits[..|digits| - 1], k);
    }
  }

  lemma DigitTaken(text: string, start: nat, pos: nat, total: nat)
    requires start <= pos < |text| && IsDigit(text[pos]) && DigitsOnly(text[start..pos])
    requires total < WORD64 && Accumulate(text[start..pos]) == Some(total)
    ensures DigitsOnly(text[start..pos + 1])
    ensures Accumulate(text[start..pos + 1]) == NextValue(total, DigitOf(text[pos]))
  {
    hide Accumulate, NextValue;
    var read := text[start..pos + 1];
    assert read[..|read| - 1] == text[start..pos] && read[|read| - 1] == text[pos];
    AccumulateStep(read);
  }

  lemma DigitsSlice(text: string, start: nat)
    requires start <= |text|
    ensures DigitsOnly(text[start..Digits(text, start)])
  {
    hide Digits;
  }

  lemma OverflowEnds(text: string, start: nat, pos: nat, end: nat)
    requires start <= pos <= end <= |text| && DigitsOnly(text[start..end]) && DigitsOnly(text[start..pos])
    requires Accumulate(text[start..pos]).None?
    ensures Accumulate(text[start..end]).None?
  {
    hide Accumulate;
    assert text[start..end][..pos - start] == text[start..pos];
    OverflowStays(text[start..end], pos - start);
  }

  // ----- Paths -----

  /** Where the first '/' is, or the end. */
  function SlashAt(s: string): (k: nat)
    ensures k <= |s| && (k < |s| ==> s[k] == '/') && (forall i :: 0 <= i < k ==> s[i] != '/')
  {
    if s == "" || s[0] == '/' then 0 else 1 + SlashAt(s[1..])
  }

  /** The parts between the slashes, empty ones included. */
  function Split(s: string): (parts: seq<string>)
    ensures parts != []
    decreases |s|
  {
    var k := SlashAt(s);
    if k == |s| then [s] else [s[..k]] + Split(s[k + 1..])
  }

  predicate SafePart(part: string) {
    && part != "" && part != "." && part != ".."
    && (forall i :: 0 <= i < |part| ==> part[i] >= ' ' && part[i] != '\\')
  }

  ghost predicate SafeParts(parts: seq<string>) {
    forall part :: part in parts ==> SafePart(part)
  }

  ghost predicate SafePath(path: string) {
    SafeParts(Split(path))
  }

  lemma SafeCons(part: string, rest: seq<string>)
    ensures SafeParts([part] + rest) <==> SafePart(part) && SafeParts(rest)
    ensures SafeParts([part]) <==> SafePart(part)
  {
    hide SafePart;
    assert forall p :: p in [part] + rest <==> p == part || p in rest;
  }

  /** pathIsSafe: part by part. */
  method PathIsSafe(path: string) returns (safe: bool)
    ensures safe <==> SafePath(path)
  {
    hide SlashAt, SafePart;
    if path == "" || path[0] == '/' {
      UnsafeStart(path);
      return false;
    }
    var part := 0;
    assert path[0..] == path;
    while true
      invariant 0 <= part <= |path|
      invariant SafePath(path) <==> SafePath(path[part..])
      decreases |path| - part
    {
      ghost var rest := path[part..];
      var length := 0;
      while part + length < |path| && path[part + length] != '/'
        invariant 0 <= length && part + length <= |path|
        invariant forall i :: 0 <= i < length ==> rest[i] != '/'
      {
        assert rest[length] == path[part + length];
        length := length + 1;
      }
      SlashIs(rest, length, part + length < |path|);
      var ok := PartIsSafe(path, part, length);
      assert path[part..part + length] == rest[..length];
      SplitStep(rest);
      if !ok {
        return false;
      }
      if part + length == |path| {
        return true;
      }
      assert rest[length + 1..] == path[part + length + 1..];
      part := part + length + 1;
    }
  }

  lemma UnsafeStart(path: string)
    requires path == "" || path[0] == '/'
    ensures !SafePath(path)
  {
    assert SlashAt(path) == 0;
    assert Split(path)[0] == "" && !SafePart("");
  }

  lemma SlashIs(s: string, k: nat, more: bool)
    requires k <= |s| && (forall i :: 0 <= i < k ==> s[i] != '/') && (more <==> k < |s|) && (more ==> s[k] == '/')
    ensures SlashAt(s) == k
  {
    hide SlashAt;
  }

  lemma SplitStep(s: string)
    ensures SlashAt(s) == |s| ==> (SafePath(s) <==> SafePart(s)) && s[..|s|] == s
    ensures SlashAt(s) < |s| ==> (SafePath(s) <==> SafePart(s[..SlashAt(s)]) && SafePath(s[SlashAt(s) + 1..]))
  {
    hide SafePart, SafeParts, SlashAt, Split;
    var k := SlashAt(s);
    SplitUnfolds(s);
    if k < |s| {
      SafeCons(s[..k], Split(s[k + 1..]));
    } else {
      SafeCons(s, []);
    }
  }

  lemma SplitUnfolds(s: string)
    ensures Split(s) == if SlashAt(s) == |s| then [s] else [s[..SlashAt(s)]] + Split(s[SlashAt(s) + 1..])
  {
    hide SlashAt;
  }

  method PartIsSafe(path: string, start: nat, length: nat) returns (safe: bool)
    requires start + length <= |path|
    ensures safe <==> SafePart(path[start..start + length])
  {
    var part := path[start..start + length];
    if length == 0 || (length == 1 && part[0] == '.') || (length == 2 && part[0] == '.' && part[1] == '.') {
      assert part == "" || part == "." || part == "..";
      return false;
    }
    var index := 0;
    while index < length
      invariant 0 <= index <= length
      invariant forall i :: 0 <= i < index ==> part[i] >= ' ' && part[i] != '\\'
    {
      var symbol := path[start + index];
      if symbol < ' ' || symbol == '\\' {
        assert part[index] == symbol;
        return false;
      }
      index := index + 1;
    }
    return true;
  }

  // ----- What a safe path is for -----

  lemma {:induction false} SafePartsAreParts(path: string)
    requires SafePath(path)
    ensures FtpPath.Parts(path) == Split(path) && FtpPath.Good(Split(path))
    decreases |path|
  {
    hide SlashAt, FtpPath.Parts, FtpPath.Plain;
    var k := SlashAt(path);
    SplitStep(path);
    if k == |path| {
      SafePartIsPlain(path);
      FtpPath.PartsOfPlain(path);
    } else {
      SafePartIsPlain(path[..k]);
      FtpPath.PartsOfPlain(path[..k]);
      assert path == path[..k] + "/" + path[k + 1..];
      FtpPath.PartsConcat(path[..k], path[k + 1..]);
      SafePartsAreParts(path[k + 1..]);
    }
  }

  lemma SafePartIsPlain(part: string)
    requires SafePart(part) && SlashAt(part) == |part|
    ensures FtpPath.Plain(part)
  {
  }

  lemma {:induction false} FoldAppends(cwd: seq<string>, parts: seq<string>)
    requires FtpPath.Good(parts)
    ensures FtpPath.Fold(cwd, parts).Some? ==> FtpPath.Fold(cwd, parts).value == cwd + parts
    decreases |parts|
  {
    hide FtpPath.Plain, FtpPath.Render;
    if parts == [] {
      assert cwd + parts == cwd;
    } else {
      FtpPath.GoodFront(parts);
      FoldAppends(cwd, parts[..|parts| - 1]);
      FtpPath.PlainIsName(parts[|parts| - 1]);
      assert cwd + parts == (cwd + parts[..|parts| - 1]) + [parts[|parts| - 1]];
    }
  }

  /** A safe path never leaves the directory it is resolved in: it only descends, part by part. */
  lemma SafePathStaysInside(cwd: seq<string>, path: string)
    requires SafePath(path)
    ensures !FtpPath.Absolute(path)
    ensures FtpPath.Normal(cwd, path).Some? ==> FtpPath.Normal(cwd, path).value == cwd + Split(path)
  {
    hide FtpPath.Parts, FtpPath.Fold, SafePart;
    SafePartsAreParts(path);
    FoldAppends(cwd, Split(path));
    if path != "" && path[0] == '/' { UnsafeStart(path); }
    if path != "" && path[0] == '\\' { UnsafeBackslash(path); }
  }

  lemma UnsafeBackslash(path: string)
    requires path != "" && path[0] == '\\'
    ensures !SafePath(path)
  {
    var k := SlashAt(path);
    assert k > 0;
    assert Split(path)[0] == path[..k] && path[..k][0] == '\\' && !SafePart(path[..k]);
  }

  // ----- The cursor -----

  class JsonCursor {
    const text: string
    var position: nat

    /** The cursor never passes the end. */
    ghost predicate Valid()
      reads this
    {
      position <= |text|
    }

    constructor (text: string)
      ensures Valid() && position == 0 && this.text == text
    {
      this.text := text;
      position := 0;
    }

    method SkipSpace()
      requires Valid()
      modifies this
      ensures Valid() && position == Space(text, old(position))
    {
      while position < |text| && IsSpace(text[position])
        invariant old(position) <= position <= |text| && Space(text, position) == Space(text, old(position))
      {
        position := position + 1;
      }
    }

    method Peek(expected: char) returns (ok: bool)
      requires Valid()
      modifies this
      ensures Valid() && position == Space(text, old(position)) && ok == At(text, position, expected)
    {
      SkipSpace();
      return position < |text| && text[position] == expected;
    }

    method Take(expected: char) returns (ok: bool)
      requires Valid()
      modifies this
      ensures Valid() && ok == At(text, Space(text, old(position)), expected)
      ensures position == Space(text, old(position)) + if ok then 1 else 0
    {
      ok := Peek(expected);
      if ok {
        position := position + 1;
      }
    }

    /** hex4: four digits, or a failure that leaves the cursor somewhere before the end. */
    method TakeHex4() returns (code: Option<nat>)
      requires Valid()
      modifies this
      ensures Valid() && code == Hex4(text, old(position)) && old(position) <= position
      ensures code.Some? ==> position == old(position) + 4
    {
      if |text| - position < 4 {
        return None;
      }
      ghost var h := text[position..position + 4];
      var value, index := 0, 0;
      while index < 4
        invariant 0 <= index <= 4 && position == old(position) + index
        invariant forall i :: 0 <= i < index ==> Sha1Hash.HexValue(h[i]) >= 0
        invariant value == PartialCode(h, index)
      {
        var digit := Sha1Hash.HexValue(text[position]);
        assert h[index] == text[position];
        position := position + 1;
        if digit < 0 {
          return None;
        }
        value := value * 16 + digit;
        index := index + 1;
      }
      assert HexDigits(h);
      PartialIsWhole(h);
      return Some(value);
    }

    /** The part of the string loop behind "\u". */
    method TakeUnicode() returns (piece: Option<string>)
      requires Valid()
      modifies this
      ensures Valid() && old(position) <= position
      ensures piece.Some? <==> UnicodeAt(text, old(position)).Some?
      ensures piece.Some? ==> UnicodeAt(text, old(position)) == Some(Read(piece.value, position))
    {
      hide Hex4, Utf8, Paired;
      var code := TakeHex4();
      if code.None? || code.value == 0 {
        return None;
      }
      if HighSurrogate(code.value) {
        if |text| - position < 2 || text[position] != '\\' || text[position + 1] != 'u' {
          return None;
        }
        position := position + 2;
        var low := TakeHex4();
        if low.None? || !LowSurrogate(low.value) {
          return None;
        }
        return Some(Utf8(Paired(code.value, low.value)));
      }
      if LowSurrogate(code.value) {
        return None;
      }
      return Some(Utf8(code.value));
    }

    /** One turn of the string loop. */
    method TakeElement() returns (piece: Option<string>)
      requires Valid() && position < |text|
      modifies this
      ensures Valid() && old(position) < position
      ensures piece.Some? <==> Element(text, old(position)).Some?
      ensures piece.Some? ==> Element(text, old(position)) == Some(Read(piece.value, position))
    {
      hide UnicodeAt, ShortMeaning;
      var symbol := text[position];
      position := position + 1;
      if symbol < ' ' {
        return None;
      }
      if symbol != '\\' {
        return Some([symbol]);
      }
      if position >= |text| {
        return None;
      }
      symbol := text[position];
      position := position + 1;
      if symbol == 'u' {
        piece := TakeUnicode();
        return;
      }
      var meaning := ShortMeaning(symbol);
      if meaning.None? {
        return None;
      }
      return Some([meaning.value]);
    }

    /** string(): into a buffer of the given capacity, or only skipped when there is none. */
    method TakeString(capacity: Option<nat>) returns (content: Option<string>)
      requires Valid() && (capacity.Some? ==> 0 < capacity.value)
      modifies this
      ensures Valid() && old(position) <= position
      ensures var r := StringAt(text, old(position));
        && (content.Some? <==> r.Some? && (capacity.Some? ==> |r.value.content| < capacity.value))
        && (content.Some? ==> r == Some(Read(content.value, position)))
    {
      hide Space, Element;
      var quoted := Take('"');
      if !quoted {
        return None;
      }
      ghost var start := position;
      var output := "";
      NothingBefore(text, start);
      while position < |text|
        invariant start <= position <= |text| && StringAt(text, old(position)) == Body(text, start)
        invariant capacity.Some? ==> |output| < capacity.value
        invariant Body(text, start) == match Body(text, position)
          case None => None
          case Some(rest) => Some(Read(output + rest.content, rest.next))
        decreases |text| - position
      {
        if text[position] == '"' {
          position := position + 1;
          assert output + "" == output;
          return Some(output);
        }
        ghost var at := position;
        var piece := TakeElement();
        if piece.None? {
          return None;
        }
        BodyStep(text, at, output);
        if capacity.Some? && |output| + |piece.value| >= capacity.value {
          return None;
        }
        output := output + piece.value;
      }
      return None;
    }

    method LiteralWord(word: string) returns (ok: bool)
      requires Valid()
      modifies this
      ensures Valid() && ok == Literal(text, Space(text, old(position)), word).Some?
      ensures position == Space(text, old(position)) + if ok then |word| else 0
      ensures ok ==> Literal(text, Space(text, old(position)), word) == Some(position)
    {
      SkipSpace();
      if |text| - position < |word| || text[position..position + |word|] != word {
        return false;
      }
      position := position + |word|;
      return true;
    }

    method SkipDigits()
      requires Valid()
      modifies this
      ensures Valid() && position == Digits(text, old(position))
    {
      while position < |text| && IsDigit(text[position])
        invariant old(position) <= position <= |text| && Digits(text, position) == Digits(text, old(position))
      {
        position := position + 1;
      }
    }

    method SkipNumberText() returns (ok: bool)
      requires Valid()
      modifies this
      ensures Valid() && old(position) <= position && ok == SkipNumber(text, old(position)).Some?
      ensures ok ==> position == SkipNumber(text, old(position)).value
    {
      hide Digits, Fraction, Exponent;
      if position < |text| && text[position] == '-' {
        position := position + 1;
      }
      if position >= |text| || !IsDigit(text[position]) {
        return false;
      }
      if text[position] == '0' {
        position := position + 1;
      } else {
        SkipDigits();
      }
      ok := SkipFraction();
      if ok {
        ok := SkipExponent();
      }
    }

    method SkipFraction() returns (ok: bool)
      requires Valid()
      modifies this
      ensures Valid() && old(position) <= position && ok == Fraction(text, old(position)).Some?
      ensures ok ==> position == Fraction(text, old(position)).value
    {
      hide Digits;
      if position < |text| && text[position] == '.' {
        position := position + 1;
        if position >= |text| || !IsDigit(text[position]) {
          return false;
        }
        SkipDigits();
      }
      return true;
    }

    method SkipExponent() returns (ok: bool)
      requires Valid()
      modifies this
      ensures Valid() && old(position) <= position && ok == Exponent(text, old(position)).Some?
      ensures ok ==> position == Exponent(text, old(position)).value
    {
      hide Digits;
      if position < |text| && (text[position] == 'e' || text[position] == 'E') {
        position := position + 1;
        if position < |text| && (text[position] == '+' || text[position] == '-') {
          position := position + 1;
        }
        if position >= |text| || !IsDigit(text[position]) {
          return false;
        }
        SkipDigits();
      }
      return true;
    }

    /** skipValue(): the recursion and its two loops. */
    method SkipValue(depth: nat) returns (ok: bool)
      requires Valid()
      modifies this
      ensures Valid() && old(position) <= position && ok == Skip(text, old(position), depth).Some?
      ensures ok ==> position == Skip(text, old(position), depth).value
      decreases if depth <= MAX_DEPTH then MAX_DEPTH + 1 - depth else 0, 0
    {
      hide Space, Body, SkipNumber, Literal, SkipItems, SkipFields, Skip;
      if depth > MAX_DEPTH {
        SkipTooDeep(text, position, depth);
        return false;
      }
      SkipSpace();
      if position >= |text| {
        SkipNothing(text, old(position), depth);
        return false;
      }
      SpaceTwice(text, old(position));
      SkipByFirst(text, old(position), depth, position);
      var c := text[position];
      if c == '"' {
        var content := TakeString(None);
        return content.Some?;
      } else if c == '{' {
        position := position + 1;
        var closed := Take('}');
        if closed {
          return true;
        }
        ok := SkipMembers(depth + 1);
      } else if c == '[' {
        position := position + 1;
        var closed := Take(']');
        if closed {
          return true;
        }
        ok := SkipElements(depth + 1);
      } else if c == 't' {
        ok := LiteralWord("true");
      } else if c == 'f' {
        ok := LiteralWord("false");
      } else if c == 'n' {
        ok := LiteralWord("null");
      } else {
        ok := SkipNumberText();
      }
    }

    method SkipElements(depth: nat) returns (ok: bool)
      requires Valid()
      modifies this
      ensures Valid() && old(position) <= position && ok == SkipItems(text, old(position), depth).Some?
      ensures ok ==> position == SkipItems(text, old(position), depth).value
      decreases if depth <= MAX_DEPTH then MAX_DEPTH + 1 - depth else 0, 1
    {
      hide Space, Skip;
      var more := true;
      while more
        invariant old(position) <= position <= |text|
        invariant more ==> SkipItems(text, old(position), depth) == SkipItems(text, position, depth)
        invariant !more ==>
          SkipItems(text, old(position), depth) == (if At(text, position, ']') then Some(position + 1) else None)
        invariant !more ==> Space(text, position) == position
        decreases more, |text| - position
      {
        var skipped := SkipValue(depth);
        if !skipped {
          return false;
        }
        SpaceTwice(text, position);
        more := Take(',');
      }
      ok := Take(']');
    }

    method SkipMembers(depth: nat) returns (ok: bool)
      requires Valid()
      modifies this
      ensures Valid() && old(position) <= position && ok == SkipFields(text, old(position), depth).Some?
      ensures ok ==> position == SkipFields(text, old(position), depth).value
      decreases if depth <= MAX_DEPTH then MAX_DEPTH + 1 - depth else 0, 1
    {
      hide Space, Skip, StringAt, SkipFields;
      var more := true;
      while more
        invariant old(position) <= position <= |text|
        invariant more ==> SkipFields(text, old(position), depth) == SkipFields(text, position, depth)
        invariant !more ==>
          SkipFields(text, old(position), depth) == (if At(text, position, '}') then Some(position + 1) else None)
        invariant !more ==> Space(text, position) == position
        decreases more, |text| - position
      {
        MemberUnfolds(text, position, depth);
        var key := TakeString(None);
        if key.None? {
          return false;
        }
        var colon := Take(':');
        if !colon {
          return false;
        }
        var skipped := SkipValue(depth);
        if !skipped {
          return false;
        }
        SpaceTwice(text, position);
        more := Take(',');
      }
      ok := Take('}');
    }

    /** The digit loop of number(), with its overflow test. */
    method TakeDigits() returns (total: Option<nat>)
      requires Valid()
      modifies this
      ensures Valid() && old(position) <= position
      ensures DigitsOnly(text[old(position)..Digits(text, old(position))])
      ensures total == Accumulate(text[old(position)..Digits(text, old(position))])
      ensures total.Some? ==> position == Digits(text, old(position))
    {
      hide NextValue, Accumulate, DigitsOnly;
      ghost var start := position;
      var value := 0;
      DigitsSlice(text, start);
      assert text[start..start] == "";
      AccumulateNothing();
      while position < |text| && IsDigit(text[position])
        invariant start <= position <= |text| && Digits(text, position) == Digits(text, start)
        invariant DigitsOnly(text[start..position]) && value < WORD64
        invariant Accumulate(text[start..position]) == Some(value)
      {
        DigitTaken(text, start, position, value);
        var next := NextValue(value, DigitOf(text[position]));
        if next.None? {
          OverflowEnds(text, start, position + 1, Digits(text, start));
          return None;
        }
        value := next.value;
        position := position + 1;
      }
      return Some(value);
    }

    /** number(): the value and the cursor are those of NumberAt, and it fails exactly when that does. */
    method TakeNumber() returns (value: Option<nat>)
      requires Valid()
      modifies this
      ensures Valid() && old(position) <= position
      ensures value.Some? <==> NumberAt(text, old(position)).Some?
      ensures value.Some? ==> NumberAt(text, old(position)) == Some(NumberRead(value.value, position))
    {
      hide Space, Accumulate, DigitsOnly, Digits;
      SkipSpace();
      if position >= |text| || !IsDigit(text[position]) {
        return None;
      }
      if text[position] == '0' && |text| - position > 1 && IsDigit(text[position + 1]) {
        return None;
      }
      value := TakeDigits();
      if value.Some? {
        if position < |text| && (text[position] == '.' || text[position] == 'e' || text[position] == 'E') {
          return None;
        }
      }
    }
  }

  function PartialCode(h: string, n: nat): nat
    requires n <= |h| && forall i :: 0 <= i < n ==> Sha1Hash.HexValue(h[i]) >= 0
  {
    if n == 0 then 0 else PartialCode(h, n - 1) * 16 + Sha1Hash.HexValue(h[n - 1])
  }

  lemma PartialIsWhole(h: string)
    requires HexDigits(h)
    ensures PartialCode(h, 4) == HexCode(h)
  {
    assert PartialCode(h, 1) == Sha1Hash.HexValue(h[0]);
    assert PartialCode(h, 2) == PartialCode(h, 1) * 16 + Sha1Hash.HexValue(h[1]);
    assert PartialCode(h, 3) == PartialCode(h, 2) * 16 + Sha1Hash.HexValue(h[2]);
  }

  /** One turn of the loop over the members of a record. */
  lemma MemberUnfolds(text: string, pos: nat, depth: nat)
    requires pos <= |text|
    ensures var key := StringAt(text, pos);
      if key.None? || !At(text, Space(text, key.value.next), ':') then SkipFields(text, pos, depth) == None
      else
        var value := Skip(text, Space(text, key.value.next) + 1, depth);
        SkipFields(text, pos, depth) == if value.None? then None else MembersGoOn(text, value.value, depth)
  {
    hide Space, Skip, StringAt;
  }

  /** Behind a member: the next one, the end of the record, or a failure. */
  function MembersGoOn(text: string, pos: nat, depth: nat): Option<nat>
    requires pos <= |text|
  {
    var p := Space(text, pos);
    if At(text, p, ',') then SkipFields(text, p + 1, depth)
    else if At(text, p, '}') then Some(p + 1) else None
  }

  lemma SkipNothing(text: string, pos: nat, depth: nat)
    requires pos <= |text| && Space(text, pos) >= |text|
    ensures Skip(text, pos, depth) == None
  {
    hide Space;
  }

  lemma NothingBefore(text: string, pos: nat)
    requires pos <= |text|
    ensures Body(text, pos).Some? ==> "" + Body(text, pos).value.content == Body(text, pos).value.content
  {
  }

  lemma BodyStep(text: string, at: nat, output: string)
    requires at < |text| && text[at] != '"' && Element(text, at).Some?
    ensures var first := Element(text, at).value;
      && (Body(text, at).Some? <==> Body(text, first.next).Some?)
      && (Body(text, at).Some? ==>
          && Body(text, at).value.next == Body(text, first.next).value.next
          && output + Body(text, at).value.content == (output + first.content) + Body(text, first.next).value.content)
  {
    hide Element;
  }
}
