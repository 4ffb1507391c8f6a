/** Path normalisation of the FTP server (normalizePath in src/ftp_server.cpp): the argument of a
    command is folded into the current directory inside one character buffer. */
module FtpPath {
  import opened Common

  const MAX_PATH: nat := 255

  predicate IsSlash(c: char) {
    c == '/' || c == '\\'
  }

  // ----- Components -----

  /** The longest beginning without a separator. */
  function Take(s: string): (r: string)
    ensures |r| <= |s| && r == s[..|r|] && (forall i :: 0 <= i < |r| ==> !IsSlash(r[i]))
    ensures |r| < |s| ==> IsSlash(s[|r|])
  {
    if s == "" || IsSlash(s[0]) then "" else [s[0]] + Take(s[1..])
  }

  /** The components of an argument: what stands between runs of separators. */
  function Parts(s: string): seq<string>
    decreases |s|
  {
    if s == "" then []
    else if IsSlash(s[0]) then Parts(s[1..])
    else [Take(s)] + Parts(s[|Take(s)|..])
  }

  predicate Plain(c: string) {
    c != "" && c != "." && c != ".." && (forall i :: 0 <= i < |c| ==> !IsSlash(c[i]) && c[i] != '\0')
  }

  ghost predicate Good(stack: seq<string>) {
    forall i :: 0 <= i < |stack| ==> Plain(stack[i])
  }

  function Join(stack: seq<string>): string {
    if stack == [] then "" else Join(stack[..|stack| - 1]) + "/" + stack[|stack| - 1]
  }

  /** The path a stack of components stands for. */
  function Render(stack: seq<string>): string {
    if stack == [] then "/" else Join(stack)
  }

  function Popped(stack: seq<string>): seq<string> {
    if stack == [] then [] else stack[..|stack| - 1]
  }

  function Push(stack: seq<string>, c: string): Option<seq<string>> {
    if c == "." then Some(stack)
    else if c == ".." then Some(Popped(stack))
    else if |Render(stack + [c])| > MAX_PATH then None
    else Some(stack + [c])
  }

  /** Folding components over the stack; None as soon as a path on the way is too long. */
  function Fold(stack: seq<string>, parts: seq<string>): Option<seq<string>> {
    if parts == [] then Some(stack)
    else
      match Fold(stack, parts[..|parts| - 1])
      case None => None
      case Some(s) => Push(s, parts[|parts| - 1])
  }

  predicate Absolute(argument: string) {
    argument != "" && IsSlash(argument[0])
  }

  /** What normalizePath means: fold from the root or from the current directory. */
  function Normal(cwd: seq<string>, argument: string): Option<seq<string>> {
    Fold(if Absolute(argument) then [] else cwd, Parts(argument))
  }

  // ----- What separators and the three special beginnings mean -----

  /** A backslash separates like a slash. */
  predicate Alike(a: string, b: string) {
    |a| == |b| && forall i :: 0 <= i < |a| ==> a[i] == b[i] || (a[i] in {'/', '\\'} && b[i] in {'/', '\\'})
  }

  lemma {:induction false} TakeAlike(a: string, b: string)
    requires Alike(a, b)
    ensures Take(a) == Take(b)
    decreases |a|
  {
    if a != "" && !IsSlash(a[0]) {
      TakeAlike(a[1..], b[1..]);
    }
  }

  lemma {:induction false} PartsAlike(a: string, b: string)
    requires Alike(a, b)
    ensures Parts(a) == Parts(b)
    decreases |a|
  {
    hide Take;
    if a == "" {
    } else if a[0] in {'/', '\\'} {
      PartsAlike(a[1..], b[1..]);
    } else {
      TakeAlike(a, b);
      TakeIsNotEmpty(a);
      PartsAlike(a[|Take(a)|..], b[|Take(a)|..]);
    }
  }

  lemma BackslashesAreSlashes(cwd: seq<string>, a: string, b: string)
    requires Alike(a, b)
    ensures Normal(cwd, a) == Normal(cwd, b)
  {
    hide Parts, Fold;
    PartsAlike(a, b);
  }

  /** An argument that begins with either separator does not depend on the current directory. */
  lemma RootedIgnoresDirectory(cwd: seq<string>, other: seq<string>, argument: string)
    requires argument != "" && (argument[0] == '/' || argument[0] == '\\')
    ensures Normal(cwd, argument) == Normal(other, argument) == Normal([], argument)
  {
  }

  /** A plain name enters a directory unless the path gets longer than 255 bytes; one dot stays, two dots
      go up, and at the root stay. */
  lemma RelativeStep(cwd: seq<string>, name: string)
    requires name != "" && forall i :: 0 <= i < |name| ==> name[i] != '/' && name[i] != '\\'
    ensures Normal(cwd, name)
         == if name == "." then Some(cwd)
            else if name == ".." then Some(if cwd == [] then [] else cwd[..|cwd| - 1])
            else if |Render(cwd + [name])| <= 255 then Some(cwd + [name]) else None
  {
    hide Render;
    OnePart(name);
    assert Parts(name) == [name];
    assert [name][..0] == [];
    assert Fold(cwd, []) == Some(cwd);
    assert Fold(cwd, [name]) == Push(cwd, name);
  }

  lemma {:induction false} OnePart(name: string)
    requires name != "" && forall i :: 0 <= i < |name| ==> !IsSlash(name[i])
    ensures Take(name) == name && Parts(name) == [name]
    decreases |name|
  {
    if |name| > 1 {
      OnePart(name[1..]);
    }
    assert name[|name|..] == "";
  }

  // ----- Laws of splitting and joining -----

  lemma TakeConcat(a: string, b: string)
    requires a != "" && !IsSlash(a[0])
    ensures Take(a + "/" + b) == Take(a)
    decreases |a|
  {
    var text := a + "/" + b;
    assert text[1..] == a[1..] + "/" + b;
    if |a| > 1 && !IsSlash(a[1]) {
      TakeConcat(a[1..], b);
    } else {
      assert |a| == 1 ==> text[1..][0] == '/' && a[1..] == "";
      assert |a| > 1 ==> text[1..][0] == a[1];
    }
  }

  /** Joining two arguments with a separator concatenates their components. */
  lemma {:induction false} PartsConcat(a: string, b: string)
    ensures Parts(a + "/" + b) == Parts(a) + Parts(b)
    decreases |a|
  {
    hide Take;
    var text := a + "/" + b;
    if a == "" {
      assert text[0] == '/' && text[1..] == b;
    } else if IsSlash(a[0]) {
      assert text[1..] == a[1..] + "/" + b;
      PartsConcat(a[1..], b);
    } else {
      TakeConcat(a, b);
      var n := |Take(a)|;
      TakeIsNotEmpty(a);
      assert text[n..] == a[n..] + "/" + b;
      PartsConcat(a[n..], b);
    }
  }

  lemma TakeIsNotEmpty(s: string)
    requires s != "" && !IsSlash(s[0])
    ensures |Take(s)| > 0
  {
  }

  lemma PartsOfPlain(c: string)
    requires Plain(c)
    ensures Parts(c) == [c]
  {
    hide Take;
    var n := |Take(c)|;
    assert n == |c|;
    assert c[n..] == "" && c[..n] == c;
  }

  lemma GoodFront(stack: seq<string>)
    requires Good(stack) && stack != []
    ensures Good(stack[..|stack| - 1]) && Plain(stack[|stack| - 1])
  {
  }

  /** Splitting undoes joining. */
  lemma {:induction false} PartsOfJoin(stack: seq<string>)
    requires Good(stack)
    ensures Parts(Join(stack)) == stack && Parts(Render(stack)) == stack
    decreases |stack|
  {
    hide Parts, Good, Plain;
    if stack == [] {
      PartsOfRoot();
    } else {
      GoodFront(stack);
      PartsOfJoin(stack[..|stack| - 1]);
      PartsConcat(Join(stack[..|stack| - 1]), stack[|stack| - 1]);
      PartsOfPlain(stack[|stack| - 1]);
    }
  }

  lemma PartsOfRoot()
    ensures Parts("") == [] && Parts("/") == []
  {
    assert Parts("/") == Parts("/"[1..]);
  }

  lemma {:induction false} FoldConcat(stack: seq<string>, a: seq<string>, b: seq<string>)
    ensures Fold(stack, a + b) == match Fold(stack, a) case None => None case Some(s) => Fold(s, b)
    decreases |b|
  {
    hide Push;
    var ab := a + b;
    if b == [] {
      assert ab == a;
    } else {
      assert ab[..|ab| - 1] == a + b[..|b| - 1];
      FoldConcat(stack, a, b[..|b| - 1]);
    }
  }

  lemma {:induction false} JoinGrows(stack: seq<string>, n: nat)
    requires n <= |stack|
    ensures |Join(stack[..n])| <= |Join(stack)|
    decreases |stack|
  {
    if n == |stack| {
      assert stack[..n] == stack;
    } else {
      JoinGrows(stack[..|stack| - 1], n);
      assert stack[..|stack| - 1][..n] == stack[..n];
    }
  }

  lemma RenderBounds(stack: seq<string>)
    ensures |Render(stack)| >= 1 && Render(stack)[0] == '/'
    decreases |stack|
  {
    if |stack| > 1 {
      RenderBounds(stack[..|stack| - 1]);
    } else if |stack| == 1 {
      assert stack[..0] == [] && Join(stack[..0]) == "";
    }
  }

  /** Folding plain components over the root only appends them. */
  lemma {:induction false} FoldOfPlain(stack: seq<string>)
    requires Good(stack) && |Render(stack)| <= MAX_PATH
    ensures Fold([], stack) == Some(stack)
    decreases |stack|
  {
    hide Plain;
    if stack == [] {
    } else {
      var front, last := stack[..|stack| - 1], stack[|stack| - 1];
      GoodFront(stack);
      JoinGrows(stack, |stack| - 1);
      FoldOfPlain(front);
      assert stack == front + [last];
      PlainIsName(last);
    }
  }

  lemma PlainIsName(c: string)
    requires Plain(c)
    ensures c != "." && c != ".."
  {
  }

  // ----- The promises -----

  lemma PushIsCanonical(stack: seq<string>, c: string)
    requires Good(stack) && |Render(stack)| <= MAX_PATH && c != ""
    requires forall i :: 0 <= i < |c| ==> !IsSlash(c[i]) && c[i] != '\0'
    ensures Push(stack, c).Some? ==> Good(Push(stack, c).value) && |Render(Push(stack, c).value)| <= MAX_PATH
  {
    if c == ".." && stack != [] { JoinGrows(stack, |stack| - 1); }
  }

  ghost predicate Names(parts: seq<string>) {
    forall i :: 0 <= i < |parts| ==>
      parts[i] != "" && forall j :: 0 <= j < |parts[i]| ==> !IsSlash(parts[i][j]) && parts[i][j] != '\0'
  }

  lemma {:induction false} PartsAreNames(s: string)
    requires '\0' !in s
    ensures Names(Parts(s))
    decreases |s|
  {
    hide Take;
    if s != "" {
      if IsSlash(s[0]) {
        PartsAreNames(s[1..]);
      } else {
        var n := |Take(s)|;
        TakeIsNotEmpty(s);
        PartsAreNames(s[n..]);
        forall j | 0 <= j < n ensures Take(s)[j] != '\0' { assert Take(s)[j] == s[j] && s[j] in s; }
      }
    }
  }

  lemma {:induction false} FoldIsCanonical(stack: seq<string>, parts: seq<string>)
    requires Good(stack) && |Render(stack)| <= MAX_PATH && Names(parts)
    ensures Fold(stack, parts).Some? ==>
      Good(Fold(stack, parts).value) && |Render(Fold(stack, parts).value)| <= MAX_PATH
    decreases |parts|
  {
    hide Push, Good, Render;
    if parts == [] {
    } else {
      FoldIsCanonical(stack, parts[..|parts| - 1]);
      if Fold(stack, parts[..|parts| - 1]).Some? {
        PushIsCanonical(Fold(stack, parts[..|parts| - 1]).value, parts[|parts| - 1]);
      }
    }
  }

  lemma RootIsGood()
    ensures Good([]) && Render([]) == "/"
  {
  }

  /** From a canonical current directory the result starts with '/', consists of plain components
      only, and fits the buffer. */
  lemma NormalIsCanonical(cwd: seq<string>, argument: string)
    requires Good(cwd) && |Render(cwd)| <= MAX_PATH && '\0' !in argument && Normal(cwd, argument).Some?
    ensures var r := Normal(cwd, argument).value;
      Good(r) && 1 <= |Render(r)| <= MAX_PATH && Render(r)[0] == '/' && Parts(Render(r)) == r
  {
    hide Good, Fold, Render;
    RootIsGood();
    PartsAreNames(argument);
    FoldIsCanonical(if Absolute(argument) then [] else cwd, Parts(argument));
    RenderBounds(Normal(cwd, argument).value);
    PartsOfJoin(Normal(cwd, argument).value);
  }

  /** No canonical path but the root ends with a separator. */
  lemma NoTrailingSlash(stack: seq<string>)
    requires Good(stack) && stack != []
    ensures !IsSlash(Render(stack)[|Render(stack)| - 1])
  {
    var last := stack[|stack| - 1];
    assert Plain(last) && Render(stack)[|Render(stack)| - 1] == last[|last| - 1];
  }

  /** Normalising a canonical path gives it back, from any directory. */
  lemma NormalIsIdempotent(cwd: seq<string>, stack: seq<string>)
    requires Good(stack) && |Render(stack)| <= MAX_PATH
    ensures Normal(cwd, Render(stack)) == Some(stack)
  {
    hide Good, Fold, Parts;
    RenderBounds(stack);
    PartsOfJoin(stack);
    FoldOfPlain(stack);
  }

  /** Entering a and then the relative path b is entering a/b; when a itself is too long on the way,
      so is a/b. */
  lemma NormalComposes(cwd: seq<string>, a: string, b: string)
    requires a != "" && !Absolute(b)
    ensures Normal(cwd, a + "/" + b) == match Normal(cwd, a) case None => None case Some(s) => Normal(s, b)
  {
    hide Fold, Parts;
    PartsConcat(a, b);
    assert (a + "/" + b)[0] == a[0];
    FoldConcat(if Absolute(a) then [] else cwd, Parts(a), Parts(b));
  }

  // ----- The loop over the buffer -----

  /** A C string in a buffer. */
  ghost predicate IsText(buffer: seq<char>, s: string) {
    |s| < |buffer| && buffer[..|s|] == s && buffer[|s|] == '\0' && '\0' !in s
  }

  lemma TextHasNoNul(buffer: seq<char>, s: string)
    requires IsText(buffer, s)
    ensures forall k :: 0 <= k < |s| ==> buffer[k] != '\0'
  {
    forall k | 0 <= k < |s| ensures buffer[k] != '\0' {
      assert buffer[k] == s[k] && s[k] in s;
    }
  }

  method StrLen(buffer: array<char>, ghost s: string) returns (length: nat)
    requires IsText(buffer[..], s)
    ensures length == |s|
  {
    TextHasNoNul(buffer[..], s);
    length := 0;
    while buffer[length] != '\0'
      invariant 0 <= length <= |s|
      decreases |s| - length
    {
      length := length + 1;
    }
  }

  method CopyText(buffer: array<char>, s: string)
    requires buffer.Length == MAX_PATH + 1 && |s| <= MAX_PATH && '\0' !in s
    modifies buffer
    ensures IsText(buffer[..], s)
  {
    forall i | 0 <= i < |s| {
      buffer[i] := s[i];
    }
    buffer[|s|] := '\0';
    assert buffer[..|s|] == s;
  }

  /** ".." scans back to the last separator and cuts the text there. */
  method Ascend(output: array<char>, ghost stack: seq<string>)
    requires Good(stack) && IsText(output[..], Render(stack))
    modifies output
    ensures IsText(output[..], Render(Popped(stack)))
  {
    hide Good;
    ghost var text, shorter := Render(stack), Render(Popped(stack));
    LastComponent(stack);
    var length := StrLen(output, text);
    while length > 1 && output[length - 1] != '/'
      invariant |shorter| <= length <= |text| && output[..] == old(output[..])
      invariant |stack| > 1 ==> |shorter| < length
    {
      assert output[..|text|][length - 1] == text[length - 1];
      length := length - 1;
    }
    assert output[..|text|] == text;
    if length > 1 {
      length := length - 1;
    }
    assert length == |shorter|;
    output[length] := '\0';
    assert output[..length] == text[..length];
  }

  /** Where the last component of a path begins. */
  lemma LastComponent(stack: seq<string>)
    requires Good(stack)
    ensures var text, shorter := Render(stack), Render(Popped(stack));
      && 1 <= |shorter| <= |text| && text[..|shorter|] == shorter
      && (stack == [] ==> |text| == 1)
      && (|stack| == 1 ==> |shorter| == 1 && forall i :: 1 <= i < |text| ==> text[i] != '/')
      && (|stack| > 1 ==> 1 < |shorter| + 1 < |text| && text[|shorter|] == '/')
      && (|stack| > 1 ==> forall i :: |shorter| < i < |text| ==> text[i] != '/')
  {
    if stack != [] {
      var front, last := stack[..|stack| - 1], stack[|stack| - 1];
      assert Plain(last);
      RenderBounds(front);
      if front == [] {
        assert Join(front) == "" && Render(stack) == "/" + last;
      } else {
        assert Render(stack) == Render(front) + "/" + last;
      }
    }
  }

  /** A plain component is appended behind a separator, unless the path gets too long. */
  method Descend(output: array<char>, component: string, ghost stack: seq<string>) returns (ok: bool)
    requires output.Length == MAX_PATH + 1 && Good(stack) && IsText(output[..], Render(stack)) && Plain(component)
    modifies output
    ensures ok <==> |Render(stack + [component])| <= MAX_PATH
    ensures ok ==> IsText(output[..], Render(stack + [component]))
  {
    ghost var text := Render(stack);
    RenderLength(stack, component);
    var length := StrLen(output, text);
    var slash := if length > 1 then 1 else 0;
    if length + slash + |component| > MAX_PATH {
      return false;
    }
    if slash != 0 {
      output[length] := '/';
      length := length + 1;
    }
    forall i | 0 <= i < |component| {
      output[length + i] := component[i];
    }
    output[length + |component|] := '\0';
    ghost var longer := Render(stack + [component]);
    assert output[..|text|] == text;
    assert output[length..length + |component|] == component;
    assert output[..|longer|] == longer;
    NoNul(longer, text, component);
    return true;
  }

  lemma NoNul(longer: string, text: string, component: string)
    requires '\0' !in text && Plain(component)
    requires longer == text + component || longer == text + "/" + component
    ensures '\0' !in longer
  {
  }

  lemma RenderLength(stack: seq<string>, component: string)
    requires Good(stack)
    ensures var text := Render(stack);
      && (|text| == 1 <==> stack == [])
      && Render(stack + [component]) == if |text| == 1 then text + component else text + "/" + component
  {
    assert (stack + [component])[..|stack|] == stack;
    assert Join(stack + [component]) == Join(stack) + "/" + component;
    if stack != [] {
      RenderBounds(stack[..|stack| - 1]);
      assert Plain(stack[|stack| - 1]);
    }
  }

  lemma TakeIs(argument: string, start: nat)
    requires start < |argument|
    ensures var whole := Take(argument[start..]);
      && start + |whole| <= |argument|
      && (start + |whole| < |argument| ==> IsSlash(argument[start + |whole|]))
      && (forall k :: 0 <= k < |whole| ==> !IsSlash(argument[start + k]) && whole[k] == argument[start + k])
  {
    hide Take;
    var whole := Take(argument[start..]);
    forall k | 0 <= k < |whole| ensures !IsSlash(argument[start + k]) && whole[k] == argument[start + k] {
      assert whole[k] == argument[start..][k];
    }
  }

  /** Copies one component into the local buffer; false when it does not fit. */
  method NextComponent(argument: string, start: nat, component: array<char>) returns (ok: bool, length: nat)
    requires start < |argument| && !IsSlash(argument[start]) && component.Length == MAX_PATH + 1
    modifies component
    ensures ok <==> |Take(argument[start..])| <= MAX_PATH
    ensures ok ==> length == |Take(argument[start..])| && component[..length] == Take(argument[start..])
  {
    hide Take;
    ghost var whole := Take(argument[start..]);
    TakeIs(argument, start);
    length := 0;
    while start + length < |argument| && !IsSlash(argument[start + length])
      invariant 0 <= length <= |whole| && length <= MAX_PATH
      invariant component[..length] == whole[..length]
    {
      if length >= MAX_PATH {
        return false, 0;
      }
      component[length] := argument[start + length];
      length := length + 1;
    }
    return true, length;
  }

  /** One component on the buffer: nothing, one level up, or one level down. */
  method ApplyComponent(output: array<char>, name: string, ghost at: seq<string>) returns (ok: bool, ghost after: seq<string>)
    requires output.Length == MAX_PATH + 1 && Good(at) && IsText(output[..], Render(at)) && |Render(at)| <= MAX_PATH
    requires name != "." && name != ".." ==> Plain(name)
    modifies output
    ensures Push(at, name) == if ok then Some(after) else None
    ensures ok ==> Good(after) && IsText(output[..], Render(after)) && |Render(after)| <= MAX_PATH
  {
    hide Good, Push, Plain, Render, IsText;
    ok, after := true, at;
    if name == "." {
      DotStays(at);
    } else if name == ".." {
      Ascend(output, at);
      DotDotPops(at);
      after := Popped(at);
    } else {
      ok := Descend(output, name, at);
      NamePushes(at, name);
      after := at + [name];
    }
  }

  /** normalizePath: the in-place buffer ends with the path of the folded stack, and the call fails
      exactly when the fold does. */
  method NormalizePath(cwd: string, argument: string, output: array<char>, ghost stack: seq<string>) returns (ok: bool)
    requires output.Length == MAX_PATH + 1 && Good(stack) && cwd == Render(stack) && |cwd| <= MAX_PATH && '\0' !in cwd
    requires '\0' !in argument
    modifies output
    ensures ok <==> Normal(stack, argument).Some?
    ensures ok ==> IsText(output[..], Render(Normal(stack, argument).value))
  {
    hide Fold, Parts, Good, Push, Take, Plain, Render, IsText;
    FoldNothing(stack);
    if |argument| == 0 {
      CopyText(output, cwd);
      PartsOfRoot();
      return true;
    }
    RootIsGood();
    ghost var at := if Absolute(argument) then [] else stack;
    if IsSlash(argument[0]) {
      CopyText(output, "/");
    } else {
      CopyText(output, cwd);
    }
    var cursor := 0;
    assert argument[0..] == argument;
    while cursor < |argument|
      invariant 0 <= cursor <= |argument|
      invariant Good(at) && IsText(output[..], Render(at)) && |Render(at)| <= MAX_PATH
      invariant Normal(stack, argument) == Fold(at, Parts(argument[cursor..]))
    {
      if IsSlash(argument[cursor]) {
        PartsAfterSlash(argument[cursor..]);
        assert argument[cursor..][1..] == argument[cursor + 1..];
        cursor := cursor + 1;
        continue;
      }
      ghost var part := Take(argument[cursor..]);
      PartsAfterName(argument, cursor);
      FoldFirst(at, part, Parts(argument[cursor + |part|..]));
      var component := new char[MAX_PATH + 1];
      var fits, length := NextComponent(argument, cursor, component);
      if !fits {
        TooLong(at, part);
        return false;
      }
      var name := component[..length];
      cursor := cursor + length;
      NameIsClean(argument, cursor - length);
      ok, at := ApplyComponent(output, name, at);
      if !ok {
        return;
      }
    }
    assert argument[cursor..] == "";
    PartsOfRoot();
    FoldNothing(at);
    return true;
  }

  lemma FoldNothing(stack: seq<string>)
    ensures Fold(stack, []) == Some(stack)
  {
  }

  lemma PartsAfterSlash(s: string)
    requires s != "" && IsSlash(s[0])
    ensures Parts(s) == Parts(s[1..])
  {
  }

  lemma PartsAfterName(argument: string, cursor: nat)
    requires cursor < |argument| && !IsSlash(argument[cursor])
    ensures var part := Take(argument[cursor..]);
      && 0 < |part| && cursor + |part| <= |argument|
      && Parts(argument[cursor..]) == [part] + Parts(argument[cursor + |part|..])
  {
    hide Take;
    TakeIsNotEmpty(argument[cursor..]);
    assert argument[cursor..][|Take(argument[cursor..])|..] == argument[cursor + |Take(argument[cursor..])|..];
  }

  lemma FoldFirst(stack: seq<string>, part: string, rest: seq<string>)
    ensures Fold(stack, [part] + rest) == match Push(stack, part) case None => None case Some(s) => Fold(s, rest)
  {
    hide Push;
    FoldConcat(stack, [part], rest);
    assert [part][..0] == [] && Fold(stack, [part][..0]) == Some(stack);
  }

  lemma TooLong(stack: seq<string>, part: string)
    requires |part| > MAX_PATH
    ensures Push(stack, part) == None
  {
    assert (stack + [part])[..|stack|] == stack;
  }

  lemma NameIsClean(argument: string, cursor: nat)
    requires cursor < |argument| && !IsSlash(argument[cursor]) && '\0' !in argument
    ensures var name := Take(argument[cursor..]); name != "." && name != ".." ==> Plain(name)
  {
    hide Take;
    TakeIsNotEmpty(argument[cursor..]);
    var name := Take(argument[cursor..]);
    forall i | 0 <= i < |name| ensures name[i] != '\0' {
      assert name[i] == argument[cursor + i] && argument[cursor + i] in argument;
    }
  }

  lemma DotStays(stack: seq<string>)
    ensures Push(stack, ".") == Some(stack)
  {
  }

  lemma DotDotPops(stack: seq<string>)
    requires Good(stack)
    ensures Push(stack, "..") == Some(Popped(stack)) && Good(Popped(stack)) && |Render(Popped(stack))| <= |Render(stack)|
  {
    LastComponent(stack);
  }

  lemma NamePushes(stack: seq<string>, name: string)
    requires Good(stack) && Plain(name)
    ensures Push(stack, name) == if |Render(stack + [name])| > MAX_PATH then None else Some(stack + [name])
    ensures Good(stack + [name])
  {
    PlainIsName(name);
  }
}
