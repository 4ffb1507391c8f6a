/** Case folding of ASCII letters, shared by the name comparisons of the server. */
module AsciiText {

  /** toupper() in the C locale: bytes from 0x80 on are kept as they are. */
  function ToUpper(c: char): char {
    if 'a' <= c <= 'z' then (c as int - 32) as char else c
  }

  function Fold(s: string): (r: string)
    ensures |r| == |s|
    ensures forall i :: 0 <= i < |s| ==> r[i] == ToUpper(s[i])
  {
    if s == "" then "" else [ToUpper(s[0])] + Fold(s[1..])
  }

  /** The letters a to z become A to Z one by one; nothing else changes, and nothing becomes lower case. */
  lemma LettersFold(i: nat, c: char)
    requires i < 26
    ensures ToUpper("abcdefghijklmnopqrstuvwxyz"[i]) == "ABCDEFGHIJKLMNOPQRSTUVWXYZ"[i]
    ensures ToUpper(c) != c ==> c in "abcdefghijklmnopqrstuvwxyz"
  {
    if 'a' <= c <= 'z' {
      assert "abcdefghijklmnopqrstuvwxyz"[c as int - 'a' as int] == c;
    }
  }

  predicate SameIgnoringCase(left: string, right: string) {
    Fold(left) == Fold(right)
  }

  lemma SameIsPointwise(left: string, right: string)
    ensures SameIgnoringCase(left, right) <==>
      |left| == |right| && forall i :: 0 <= i < |left| ==> ToUpper(left[i]) == ToUpper(right[i])
  {
    if |left| == |right| && forall i :: 0 <= i < |left| ==> ToUpper(left[i]) == ToUpper(right[i]) {
      assert Fold(left) == Fold(right);
    }
    if Fold(left) == Fold(right) {
      forall i | 0 <= i < |left| ensures ToUpper(left[i]) == ToUpper(right[i]) {
        assert Fold(left)[i] == Fold(right)[i];
      }
    }
  }
}

/** The directory mask of QUERY_DIRECTORY (wildcardMatch in src/smb_server.cpp). */
module Wildcard {
  import opened AsciiText

  /** One pattern character other than a star against one name character. */
  predicate Fits(p: char, c: char) {
    p == '?' || ToUpper(p) == ToUpper(c)
  }

  /** What a mask means: '*' stands for any run of characters, '?' for any one. */
  predicate Matches(pattern: string, text: string)
    decreases |pattern| + |text|
  {
    if pattern == "" then text == ""
    else if pattern[0] == '*' then
      Matches(pattern[1..], text) || (text != "" && Matches(pattern, text[1..]))
    else text != "" && Fits(pattern[0], text[0]) && Matches(pattern[1..], text[1..])
  }

  /** A star-free piece of pattern fits the text character by character. */
  predicate FitsAll(piece: string, text: string) {
    |piece| == |text| && forall i :: 0 <= i < |piece| ==> piece[i] != '*' && Fits(piece[i], text[i])
  }

  /** A star absorbs any prefix of the text. */
  lemma {:induction false} StarAbsorbs(pattern: string, text: string, k: nat)
    requires pattern != "" && pattern[0] == '*' && k <= |text|
    ensures Matches(pattern, text[k..]) ==> Matches(pattern, text)
    decreases k
  {
    if k == 0 {
      assert text[0..] == text;
    } else {
      assert text[1..][k - 1..] == text[k..];
      StarAbsorbs(pattern, text[1..], k - 1);
    }
  }

  /** Matching after a star-free piece that fits. */
  lemma {:induction false} PieceThenRest(piece: string, rest: string, text: string)
    requires |piece| <= |text| && FitsAll(piece, text[..|piece|])
    ensures Matches(piece + rest, text) == Matches(rest, text[|piece|..])
  {
    if piece == "" {
      assert piece + rest == rest && text[0..] == text;
    } else {
      assert (piece + rest)[1..] == piece[1..] + rest;
      assert text[1..][..|piece| - 1] == text[..|piece|][1..];
      assert text[1..][|piece| - 1..] == text[|piece|..];
      assert Fits(piece[0], text[..|piece|][0]);
      PieceThenRest(piece[1..], rest, text[1..]);
    }
  }

  /** Conversely, a match of piece + rest fits the piece to the first characters. */
  lemma {:induction false} PieceFits(piece: string, rest: string, text: string)
    requires forall i :: 0 <= i < |piece| ==> piece[i] != '*'
    requires Matches(piece + rest, text)
    ensures |piece| <= |text| && Matches(rest, text[|piece|..])
  {
    if piece == "" {
      assert piece + rest == rest && text[0..] == text;
    } else {
      assert (piece + rest)[0] == piece[0];
      assert (piece + rest)[1..] == piece[1..] + rest;
      PieceFits(piece[1..], rest, text[1..]);
      assert text[1..][|piece| - 1..] == text[|piece|..];
    }
  }

  /** The key of the greedy loop: once a piece after a star has been placed, a later star makes
      every other placement of that piece unnecessary. */
  lemma {:induction false} EarliestPlacementSuffices(piece: string, rest: string, text: string)
    requires rest != "" && rest[0] == '*'
    requires |piece| <= |text| && FitsAll(piece, text[..|piece|])
    ensures Matches("*" + piece + rest, text) == Matches(rest, text[|piece|..])
    decreases |text|
  {
    var pattern := "*" + piece + rest;
    assert pattern[1..] == piece + rest;
    PieceThenRest(piece, rest, text);
    if Matches(pattern, text) && !Matches(pattern[1..], text) {
      StarPlacement(pattern, piece, rest, text);
      var k :| 0 <= k <= |text| && Matches(piece + rest, text[k..]);
      PieceFits(piece, rest, text[k..]);
      assert text[k..][|piece|..] == text[k + |piece|..] == text[|piece|..][k..];
      StarAbsorbs(rest, text[|piece|..], k);
    }
  }

  lemma {:induction false} StarPlacement(pattern: string, piece: string, rest: string, text: string)
    requires pattern == "*" + piece + rest && Matches(pattern, text)
    ensures exists k :: 0 <= k <= |text| && Matches(piece + rest, text[k..])
    decreases |text|
  {
    assert pattern[1..] == piece + rest;
    assert text[0..] == text;
    if !Matches(pattern[1..], text) {
      StarPlacement(pattern, piece, rest, text[1..]);
      var k :| 0 <= k <= |text[1..]| && Matches(piece + rest, text[1..][k..]);
      assert text[1..][k..] == text[k + 1..];
    }
  }

  /** Characters consumed by the loop's first branch may include a star met by a star: reading
      such a star as "one character" never accepts more than the mask does. */
  lemma {:induction false} LiteralPieceIsSound(piece: string, rest: string, text: string)
    requires |piece| <= |text| && forall i :: 0 <= i < |piece| ==> Fits(piece[i], text[i])
    ensures Matches(rest, text[|piece|..]) ==> Matches(piece + rest, text)
  {
    if piece == "" {
      assert piece + rest == rest && text[0..] == text;
    } else {
      assert (piece + rest)[1..] == piece[1..] + rest;
      assert text[1..][|piece| - 1..] == text[|piece|..];
      LiteralPieceIsSound(piece[1..], rest, text[1..]);
      if piece[0] == '*' && Matches(piece[1..] + rest, text[1..]) {
        assert Matches(piece + rest, text[1..]);
      }
    }
  }

  /** Nothing matches a piece that fits followed by a rest that does not. */
  lemma RestFails(pattern: string, text: string, star: nat, retry: nat, p: nat, t: nat)
    requires star < p <= |pattern| && retry <= t <= |text| && pattern[star] == '*'
    requires FitsAll(pattern[star + 1..p], text[retry..t]) && !Matches(pattern[p..], text[t..])
    ensures !Matches(pattern[star + 1..], text[retry..])
    ensures Matches(pattern[star..], text[retry..]) ==> retry < |text| && Matches(pattern[star..], text[retry + 1..])
  {
    var piece, rest, tail := pattern[star + 1..p], pattern[p..], text[retry..];
    assert pattern[star + 1..] == piece + rest;
    assert tail[..|piece|] == text[retry..t];
    assert tail[|piece|..] == text[t..];
    PieceThenRest(piece, rest, tail);
    assert pattern[star..][1..] == pattern[star + 1..];
    if retry < |text| {
      assert tail[1..] == text[retry + 1..];
    }
  }

  /** At the end of the text a pending piece leaves no room for another placement. */
  lemma EndOfText(pattern: string, text: string, star: nat, retry: nat, p: nat)
    requires star < p <= |pattern| && retry <= |text| && pattern[star] == '*'
    requires FitsAll(pattern[star + 1..p], text[retry..])
    ensures Matches(pattern[star..], text[retry..]) ==> Matches(pattern[p..], "")
  {
    var piece, rest, tail := pattern[star + 1..p], pattern[p..], text[retry..];
    assert pattern[star..] == "*" + piece + rest;
    if Matches(pattern[star..], tail) {
      StarPlacement(pattern[star..], piece, rest, tail);
      var k :| 0 <= k <= |tail| && Matches(piece + rest, tail[k..]);
      PieceFits(piece, rest, tail[k..]);
      assert tail[k..][|piece|..] == "";
    }
  }

  lemma NewStar(pattern: string, text: string, star: nat, retry: nat, p: nat, t: nat)
    requires star < p < |pattern| && retry <= t <= |text| && pattern[star] == '*' && pattern[p] == '*'
    requires FitsAll(pattern[star + 1..p], text[retry..t])
    ensures Matches(pattern[star..], text[retry..]) == Matches(pattern[p..], text[t..])
  {
    var piece, rest, tail := pattern[star + 1..p], pattern[p..], text[retry..];
    assert pattern[star..] == "*" + piece + rest;
    assert tail[..|piece|] == text[retry..t];
    assert tail[|piece|..] == text[t..];
    EarliestPlacementSuffices(piece, rest, tail);
  }

  /** What the loop knows: where the last star is and how the text since then was consumed. */
  ghost predicate Sound(pattern: string, text: string, p: nat, t: nat, star: int, retry: nat)
    requires p <= |pattern| && t <= |text| && retry <= |text| && -1 <= star < |pattern|
  {
    && (Matches(pattern[p..], text[t..]) ==> Matches(pattern, text))
    && (star >= 0 && Matches(pattern[star..], text[retry..]) ==> Matches(pattern, text))
  }

  ghost predicate Exact(pattern: string, text: string, p: nat, t: nat, star: int, retry: nat)
    requires p <= |pattern| && t <= |text| && retry <= |text| && -1 <= star < |pattern|
  {
    if star < 0 then Matches(pattern, text) ==> Matches(pattern[p..], text[t..])
    else
      && star < p && retry <= t && FitsAll(pattern[star + 1..p], text[retry..t])
      && (Matches(pattern, text) ==> Matches(pattern[star..], text[retry..]))
  }

  lemma StepLiteral(pattern: string, text: string, p: nat, t: nat, star: int, retry: nat)
    requires p < |pattern| && t < |text| && retry <= |text| && -1 <= star < |pattern|
    requires Fits(pattern[p], text[t]) && Sound(pattern, text, p, t, star, retry)
    ensures Sound(pattern, text, p + 1, t + 1, star, retry)
    ensures '*' !in text && Exact(pattern, text, p, t, star, retry) ==> Exact(pattern, text, p + 1, t + 1, star, retry)
  {
    var rest, tail := pattern[p..], text[t..];
    assert rest[1..] == pattern[p + 1..] && tail[1..] == text[t + 1..];
    assert rest == [pattern[p]] + pattern[p + 1..];
    LiteralPieceIsSound([pattern[p]], pattern[p + 1..], tail);
    assert '*' !in text ==> text[t] != '*';
    if '*' !in text && Exact(pattern, text, p, t, star, retry) && star >= 0 {
      assert pattern[star + 1..p + 1] == pattern[star + 1..p] + [pattern[p]];
      assert text[retry..t + 1] == text[retry..t] + [text[t]];
    }
  }

  lemma StepStar(pattern: string, text: string, p: nat, t: nat, star: int, retry: nat)
    requires p < |pattern| && t < |text| && retry <= |text| && -1 <= star < |pattern| && pattern[p] == '*'
    requires star >= 0 ==> pattern[star] == '*'
    requires Sound(pattern, text, p, t, star, retry)
    ensures Sound(pattern, text, p + 1, t, p, t)
    ensures Exact(pattern, text, p, t, star, retry) ==> Exact(pattern, text, p + 1, t, p, t)
  {
    assert pattern[p..][1..] == pattern[p + 1..];
    if Exact(pattern, text, p, t, star, retry) && star >= 0 {
      NewStar(pattern, text, star, retry, p, t);
    }
  }

  lemma StepBack(pattern: string, text: string, p: nat, t: nat, star: nat, retry: nat)
    requires p <= |pattern| && t < |text| && retry < |text| && star < |pattern| && pattern[star] == '*'
    requires p == |pattern| || (pattern[p] != '*' && !Fits(pattern[p], text[t]))
    requires Sound(pattern, text, p, t, star, retry)
    ensures Sound(pattern, text, star + 1, retry + 1, star, retry + 1)
    ensures Exact(pattern, text, p, t, star, retry) ==> Exact(pattern, text, star + 1, retry + 1, star, retry + 1)
  {
    assert text[retry..][1..] == text[retry + 1..];
    assert pattern[star..][1..] == pattern[star + 1..];
    StarAbsorbs(pattern[star..], text[retry..], 1);
    if Exact(pattern, text, p, t, star, retry) {
      RestFails(pattern, text, star, retry, p, t);
    }
  }

  lemma {:induction false} OnlyStarsLeft(pattern: string, p: nat, q: nat)
    requires p <= q <= |pattern| && (forall i :: p <= i < q ==> pattern[i] == '*') && (q < |pattern| ==> pattern[q] != '*')
    ensures Matches(pattern[p..], "") <==> q == |pattern|
    decreases q - p
  {
    if p < q {
      assert pattern[p..][1..] == pattern[p + 1..];
      OnlyStarsLeft(pattern, p + 1, q);
    }
  }

  // ----- The loop -----

  /** The index after the stars that follow p. */
  function SkipStars(pattern: string, p: nat): (q: nat)
    requires p <= |pattern|
    ensures p <= q <= |pattern| && (q < |pattern| ==> pattern[q] != '*')
    ensures forall i :: p <= i < q ==> pattern[i] == '*'
    decreases |pattern| - p
  {
    if p < |pattern| && pattern[p] == '*' then SkipStars(pattern, p + 1) else p
  }

  /** The loop of wildcardMatch() from any of its states; star is -1 before the first star. */
  predicate Loop(pattern: string, text: string, p: nat, t: nat, star: int, retry: nat)
    requires p <= |pattern| && retry <= t <= |text| && -1 <= star < |pattern| && star < p
    decreases |pattern| - star, |text| - retry, |pattern| - p
  {
    if t == |text| then SkipStars(pattern, p) == |pattern|
    else if p < |pattern| && (pattern[p] == '?' || ToUpper(pattern[p]) == ToUpper(text[t])) then
      Loop(pattern, text, p + 1, t + 1, star, retry)
    else if p < |pattern| && pattern[p] == '*' then Loop(pattern, text, p + 1, t, p, t)
    else if star >= 0 then Loop(pattern, text, star + 1, retry + 1, star, retry + 1)
    else false
  }

  predicate Accepts(pattern: string, text: string) {
    Loop(pattern, text, 0, 0, -1, 0)
  }

  lemma {:induction false} LoopDecides(pattern: string, text: string, p: nat, t: nat, star: int, retry: nat)
    requires p <= |pattern| && retry <= t <= |text| && -1 <= star < |pattern| && star < p
    requires star >= 0 ==> pattern[star] == '*'
    requires Sound(pattern, text, p, t, star, retry)
    ensures Loop(pattern, text, p, t, star, retry) ==> Matches(pattern, text)
    ensures '*' !in text && Exact(pattern, text, p, t, star, retry) && Matches(pattern, text) ==>
      Loop(pattern, text, p, t, star, retry)
    decreases |pattern| - star, |text| - retry, |pattern| - p
  {
    if t == |text| {
      OnlyStarsLeft(pattern, p, SkipStars(pattern, p));
      assert text[t..] == "" && text[retry..t] == text[retry..];
      if star >= 0 && Exact(pattern, text, p, t, star, retry) {
        EndOfText(pattern, text, star, retry, p);
      }
    } else if p < |pattern| && (pattern[p] == '?' || ToUpper(pattern[p]) == ToUpper(text[t])) {
      StepLiteral(pattern, text, p, t, star, retry);
      LoopDecides(pattern, text, p + 1, t + 1, star, retry);
    } else if p < |pattern| && pattern[p] == '*' {
      StepStar(pattern, text, p, t, star, retry);
      LoopDecides(pattern, text, p + 1, t, p, t);
    } else if star >= 0 {
      StepBack(pattern, text, p, t, star, retry);
      LoopDecides(pattern, text, star + 1, retry + 1, star, retry + 1);
    }
  }

  /** One backtrack point is enough: for every mask and every name without a star (which FAT does
      not allow in names) the loop accepts exactly what the mask means. For any other name it
      still accepts nothing that the mask does not. */
  lemma AcceptsWhatTheMaskMeans(pattern: string, text: string)
    ensures Accepts(pattern, text) ==> Matches(pattern, text)
    ensures '*' !in text ==> (Accepts(pattern, text) <==> Matches(pattern, text))
  {
    assert pattern[0..] == pattern && text[0..] == text;
    LoopDecides(pattern, text, 0, 0, -1, 0);
  }

  /** Why names with a star are excluded: the loop meets the mask's star with the name's star and
      never comes back, although "*a" means every name that ends with "a". */
  lemma StarInNameIsTakenLiterally()
    ensures Matches("*a", "*ba") && !Accepts("*a", "*ba")
  {
    assert "*a"[1..] == "a" && "*ba"[1..] == "ba" && "ba"[1..] == "a" && "a"[1..] == "";
    assert Matches("a", "a");
    assert Matches("*a", "a");
    assert Matches("*a", "ba");
    assert !Loop("*a", "*ba", 1, 1, -1, 0);
  }

  method WildcardMatch(pattern: string, text: string) returns (accepted: bool)
    ensures accepted == Accepts(pattern, text)
  {
    var p, t := 0, 0;
    var star, retry := -1, 0;
    while t < |text|
      invariant 0 <= p <= |pattern| && 0 <= retry <= t <= |text| && -1 <= star < |pattern| && star < p
      invariant Accepts(pattern, text) == Loop(pattern, text, p, t, star, retry)
      decreases |pattern| - star, |text| - retry, |pattern| - p
    {
      if p < |pattern| && (pattern[p] == '?' || ToUpper(pattern[p]) == ToUpper(text[t])) {
        p, t := p + 1, t + 1;
      } else if p < |pattern| && pattern[p] == '*' {
        star, retry := p, t;
        p := p + 1;
      } else if star >= 0 {
        retry := retry + 1;
        p, t := star + 1, retry;
      } else {
        return false;
      }
    }
    ghost var q := p;
    while p < |pattern| && pattern[p] == '*'
      invariant q <= p <= |pattern| && SkipStars(pattern, q) == SkipStars(pattern, p)
    {
      p := p + 1;
    }
    accepted := p == |pattern|;
  }
}
