/** The minimal JSON reader of the updater (JsonCursor in src/github_tree.cpp) against the grammar of
    RFC 8259, and its string decoding against the UTF-8 of RFC 3629. */
module JsonText {
  import opened Common
  import opened Sha1Hash

  const MAX_DEPTH: nat := 32

  // ----- Reading: each function returns the position after what it read -----

  predicate IsSpace(c: char) { c == ' ' || c == '\t' || c == '\r' || c == '\n' }
  predicate IsDigit(c: char) { '0' <= c <= '9' }

  predicate At(text: string, pos: nat, c: char) {
    pos < |text| && text[pos] == c
  }

  predicate DigitAt(text: string, pos: nat) {
    pos < |text| && IsDigit(text[pos])
  }

  function Space(text: string, pos: nat): (r: nat)
    requires pos <= |text|
    ensures pos <= r <= |text| && (forall i :: pos <= i < r ==> IsSpace(text[i]))
    ensures r < |text| ==> !IsSpace(text[r])
    decreases |text| - pos
  {
    if pos < |text| && IsSpace(text[pos]) then Space(text, pos + 1) else pos
  }

  function Digits(text: string, pos: nat): (r: nat)
    requires pos <= |text|
    ensures pos <= r <= |text| && (forall i :: pos <= i < r ==> IsDigit(text[i]))
    ensures !DigitAt(text, r)
    decreases |text| - pos
  {
    if DigitAt(text, pos) then Digits(text, pos + 1) else pos
  }

  predicate HexDigits(h: string) {
    |h| == 4 && forall i :: 0 <= i < 4 ==> HexValue(h[i]) >= 0
  }

  function HexCode(h: string): (code: nat)
    requires HexDigits(h)
    ensures code < 0x1_0000
  {
    ((HexValue(h[0]) * 16 + HexValue(h[1])) * 16 + HexValue(h[2])) * 16 + HexValue(h[3])
  }

  function Hex4(text: string, pos: nat): (r: Option<nat>)
    requires pos <= |text|
    ensures r.Some? ==> r.value < 0x1_0000
  {
    if pos + 4 <= |text| && HexDigits(text[pos..pos + 4]) then Some(HexCode(text[pos..pos + 4])) else None
  }

  /** putUtf8: one to four bytes of a code point. */
  function Utf8(code: nat): string
    requires code < 0x11_0000
  {
    if code < 0x80 then [code as char]
    else if code < 0x800 then [(0xC0 + code / 64) as char, (0x80 + code % 64) as char]
    else if code < 0x1_0000 then
      [(0xE0 + code / 4096) as char, (0x80 + code / 64 % 64) as char, (0x80 + code % 64) as char]
    else
      [(0xF0 + code / 0x4_0000) as char, (0x80 + code / 4096 % 64) as char, (0x80 + code / 64 % 64) as char,
       (0x80 + code % 64) as char]
  }

  const BACKSPACE: char := 8 as char
  const FORM_FEED: char := 12 as char

  /** What a one-letter escape stands for. */
  function ShortMeaning(e: char): Option<char> {
    if e == '"' || e == '\\' || e == '/' then Some(e)
    else if e == 'b' then Some(BACKSPACE)
    else if e == 'f' then Some(FORM_FEED)
    else if e == 'n' then Some('\n')
    else if e == 'r' then Some('\r')
    else if e == 't' then Some('\t')
    else None
  }

  predicate HighSurrogate(code: nat) { 0xD800 <= code <= 0xDBFF }
  predicate LowSurrogate(code: nat) { 0xDC00 <= code <= 0xDFFF }

  function Paired(high: nat, low: nat): (code: nat)
    requires HighSurrogate(high) && LowSurrogate(low)
    ensures 0x1_0000 <= code < 0x11_0000
  {
    0x1_0000 + (high - 0xD800) * 1024 + (low - 0xDC00)
  }

  datatype Read = Read(content: string, next: nat)

  /** The bytes of a \u escape whose digits start at pos. */
  function UnicodeAt(text: string, pos: nat): (r: Option<Read>)
    requires pos <= |text|
    ensures r.Some? ==> pos + 4 <= r.value.next <= |text|
  {
    match Hex4(text, pos)
    case None => None
    case Some(code) =>
      if code == 0 then None
      else if HighSurrogate(code) then
        if !(At(text, pos + 4, '\\') && At(text, pos + 5, 'u')) then None
        else
          match Hex4(text, pos + 6)
          case None => None
          case Some(low) => if !LowSurrogate(low) then None else Some(Read(Utf8(Paired(code, low)), pos + 10))
      else if LowSurrogate(code) then None
      else Some(Read(Utf8(code), pos + 4))
  }

  /** One character or escape of a string. */
  function Element(text: string, pos: nat): (r: Option<Read>)
    requires pos < |text|
    ensures r.Some? ==> pos < r.value.next <= |text|
  {
    var c := text[pos];
    if c < ' ' then None
    else if c != '\\' then Some(Read([c], pos + 1))
    else if pos + 1 >= |text| then None
    else if text[pos + 1] == 'u' then UnicodeAt(text, pos + 2)
    else
      match ShortMeaning(text[pos + 1])
      case None => None
      case Some(m) => Some(Read([m], pos + 2))
  }

  /** A string behind its opening quote. */
  function Body(text: string, pos: nat): (r: Option<Read>)
    requires pos <= |text|
    ensures r.Some? ==> pos < r.value.next <= |text|
    decreases |text| - pos
  {
    if pos >= |text| then None
    else if text[pos] == '"' then Some(Read("", pos + 1))
    else
      match Element(text, pos)
      case None => None
      case Some(first) =>
        match Body(text, first.next)
        case None => None
        case Some(rest) => Some(Read(first.content + rest.content, rest.next))
  }

  function StringAt(text: string, pos: nat): (r: Option<Read>)
    requires pos <= |text|
    ensures r.Some? ==> pos < r.value.next <= |text|
  {
    var p := Space(text, pos);
    if At(text, p, '"') then Body(text, p + 1) else None
  }

  function Fraction(text: string, pos: nat): (r: Option<nat>)
    requires pos <= |text|
    ensures r.Some? ==> pos <= r.value <= |text|
  {
    if !At(text, pos, '.') then Some(pos)
    else if !DigitAt(text, pos + 1) then None
    else Some(Digits(text, pos + 1))
  }

  function Exponent(text: string, pos: nat): (r: Option<nat>)
    requires pos <= |text|
    ensures r.Some? ==> pos <= r.value <= |text|
  {
    if !(At(text, pos, 'e') || At(text, pos, 'E')) then Some(pos)
    else
      var p := if At(text, pos + 1, '+') || At(text, pos + 1, '-') then pos + 2 else pos + 1;
      if !DigitAt(text, p) then None else Some(Digits(text, p))
  }

  function SkipNumber(text: string, pos: nat): (r: Option<nat>)
    requires pos <= |text|
    ensures r.Some? ==> pos < r.value <= |text|
  {
    var p := if At(text, pos, '-') then pos + 1 else pos;
    if !DigitAt(text, p) then None
    else
      match Fraction(text, if text[p] == '0' then p + 1 else Digits(text, p))
      case None => None
      case Some(q) => Exponent(text, q)
  }

  predicate Has(text: string, pos: nat, s: string) {
    pos + |s| <= |text| && text[pos..pos + |s|] == s
  }

  function Literal(text: string, pos: nat, word: string): Option<nat> {
    if Has(text, pos, word) then Some(pos + |word|) else None
  }

  /** skipValue at a nesting depth. */
  function Skip(text: string, pos: nat, depth: nat): (r: Option<nat>)
    requires pos <= |text|
    ensures r.Some? ==> pos < r.value <= |text|
    decreases if depth <= MAX_DEPTH then MAX_DEPTH + 1 - depth else 0, 0, 0
  {
    if depth > MAX_DEPTH then None
    else
      var p := Space(text, pos);
      if p >= |text| then None
      else if text[p] == '"' then
        match Body(text, p + 1)
        case None => None
        case Some(read) => Some(read.next)
      else if text[p] == '{' then
        var q := Space(text, p + 1);
        if At(text, q, '}') then Some(q + 1) else SkipFields(text, q, depth + 1)
      else if text[p] == '[' then
        var q := Space(text, p + 1);
        if At(text, q, ']') then Some(q + 1) else SkipItems(text, q, depth + 1)
      else if text[p] == 't' then Literal(text, p, "true")
      else if text[p] == 'f' then Literal(text, p, "false")
      else if text[p] == 'n' then Literal(text, p, "null")
      else SkipNumber(text, p)
  }

  function SkipItems(text: string, pos: nat, depth: nat): (r: Option<nat>)
    requires pos <= |text|
    ensures r.Some? ==> pos < r.value <= |text|
    decreases if depth <= MAX_DEPTH then MAX_DEPTH + 1 - depth else 0, 1, |text| - pos
  {
    match Skip(text, pos, depth)
    case None => None
    case Some(q) =>
      var p := Space(text, q);
      if At(text, p, ',') then SkipItems(text, p + 1, depth)
      else if At(text, p, ']') then Some(p + 1) else None
  }

  function SkipFields(text: string, pos: nat, depth: nat): (r: Option<nat>)
    requires pos <= |text|
    ensures r.Some? ==> pos < r.value <= |text|
    decreases if depth <= MAX_DEPTH then MAX_DEPTH + 1 - depth else 0, 1, |text| - pos
  {
    match StringAt(text, pos)
    case None => None
    case Some(key) =>
      var colon := Space(text, key.next);
      if !At(text, colon, ':') then None
      else
        match Skip(text, colon + 1, depth)
        case None => None
        case Some(q) =>
          var p := Space(text, q);
          if At(text, p, ',') then SkipFields(text, p + 1, depth)
          else if At(text, p, '}') then Some(p + 1) else None
  }

  // ----- The grammar (sections 2 to 7 of RFC 8259): trees that carry their white space -----

  /** A character of a string, or one of its escapes. */
  datatype Piece = Raw(c: char) | Short(e: char) | Unit(hex: string)

  predicate ValidPiece(p: Piece) {
    match p
    case Raw(c) => c >= ' ' && c != '"' && c != '\\'
    case Short(e) => ShortMeaning(e).Some?
    case Unit(hex) => HexDigits(hex)
  }

  function PrintPiece(p: Piece): string {
    match p
    case Raw(c) => [c]
    case Short(e) => ['\\', e]
    case Unit(hex) => ['\\', 'u'] + hex
  }

  predicate IsHigh(p: Piece) { p.Unit? && HexDigits(p.hex) && HighSurrogate(HexCode(p.hex)) }
  predicate IsLow(p: Piece) { p.Unit? && HexDigits(p.hex) && LowSurrogate(HexCode(p.hex)) }
  predicate IsZero(p: Piece) { p.Unit? && HexDigits(p.hex) && HexCode(p.hex) == 0 }

  /** The bytes a piece stands for on its own: a zero or half of a pair stands for nothing. */
  function Meaning(p: Piece): Option<string>
    requires ValidPiece(p)
  {
    match p
    case Raw(c) => Some([c])
    case Short(e) => Some([ShortMeaning(e).value])
    case Unit(hex) => if IsZero(p) || IsHigh(p) || IsLow(p) then None else Some(Utf8(HexCode(hex)))
  }

  ghost predicate ValidPieces(pieces: seq<Piece>) {
    forall i :: 0 <= i < |pieces| ==> ValidPiece(pieces[i])
  }

  function PrintPieces(pieces: seq<Piece>): string {
    if pieces == [] then "" else PrintPiece(pieces[0]) + PrintPieces(pieces[1..])
  }

  function Prefixed(first: Option<string>, rest: Option<string>): Option<string> {
    if first.Some? && rest.Some? then Some(first.value + rest.value) else None
  }

  function PairMeaning(high: Piece, low: Piece): string
    requires IsHigh(high) && IsLow(low)
  {
    Utf8(Paired(HexCode(high.hex), HexCode(low.hex)))
  }

  /** What a string says, if it can be said in UTF-8 without a zero byte: surrogates come in pairs
      (section 7 of RFC 8259). */
  function Meanings(pieces: seq<Piece>): Option<string>
    requires ValidPieces(pieces)
  {
    if pieces == [] then Some("")
    else if IsHigh(pieces[0]) then
      if |pieces| > 1 && IsLow(pieces[1]) then Prefixed(Some(PairMeaning(pieces[0], pieces[1])), Meanings(pieces[2..]))
      else None
    else Prefixed(Meaning(pieces[0]), Meanings(pieces[1..]))
  }

  lemma HalvesAreUnits(p: Piece)
    ensures IsHigh(p) || IsLow(p) ==> p.Unit?
  {
  }

  lemma KindsDiffer(p: Piece)
    ensures !(IsHigh(p) && IsLow(p)) && !(IsZero(p) && (IsHigh(p) || IsLow(p)))
    ensures ValidPiece(p) ==> (Meaning(p).Some? <==> !IsZero(p) && !IsHigh(p) && !IsLow(p))
  {
  }

  /** The escape at a place is not zero, and if it is a surrogate its other half is beside it. */
  predicate InPlace(pieces: seq<Piece>, i: nat)
    requires i < |pieces|
  {
    && !IsZero(pieces[i])
    && (IsHigh(pieces[i]) ==> i + 1 < |pieces| && IsLow(pieces[i + 1]))
    && (IsLow(pieces[i]) ==> 0 < i && IsHigh(pieces[i - 1]))
  }

  lemma PlaceInRest(pieces: seq<Piece>, k: nat, i: nat)
    requires 0 < k <= i < |pieces| && !IsHigh(pieces[k - 1])
    ensures InPlace(pieces, i) <==> InPlace(pieces[k..], i - k)
  {
    hide IsHigh, IsLow, IsZero;
    assert pieces[k..][i - k] == pieces[i];
  }

  lemma FirstPlaces(pieces: seq<Piece>)
    requires pieces != []
    ensures InPlace(pieces, 0) <==> !IsZero(pieces[0]) && !IsLow(pieces[0])
                                    && (IsHigh(pieces[0]) ==> |pieces| > 1 && IsLow(pieces[1]))
    ensures |pieces| > 1 && IsHigh(pieces[0]) && IsLow(pieces[1]) ==> InPlace(pieces, 1)
  {
  }

  /** Behind a complete piece or pair the places are those of the rest. */
  lemma PlacesOfRest(pieces: seq<Piece>, k: nat)
    requires 0 < k <= |pieces| && !IsHigh(pieces[k - 1])
    ensures (forall i :: k <= i < |pieces| ==> InPlace(pieces, i)) <==>
            (forall i :: 0 <= i < |pieces| - k ==> InPlace(pieces[k..], i))
  {
    hide IsHigh, IsLow, IsZero, InPlace;
    var rest := pieces[k..];
    forall i | k <= i < |pieces| ensures InPlace(pieces, i) <==> InPlace(rest, i - k) {
      PlaceInRest(pieces, k, i);
    }
    if forall i :: k <= i < |pieces| ==> InPlace(pieces, i) {
      forall i | 0 <= i < |pieces| - k ensures InPlace(rest, i) { assert InPlace(pieces, i + k); }
    }
    if forall i :: 0 <= i < |pieces| - k ==> InPlace(rest, i) {
      forall i | k <= i < |pieces| ensures InPlace(pieces, i) { assert InPlace(rest, i - k); }
    }
  }

  /** A string of the grammar says something exactly when no escape is zero and every surrogate is
      half of a pair. */
  lemma {:induction false} MeansIffPaired(pieces: seq<Piece>)
    requires ValidPieces(pieces)
    ensures Meanings(pieces).Some? <==> forall i :: 0 <= i < |pieces| ==> InPlace(pieces, i)
    decreases |pieces|
  {
    hide IsHigh, IsLow, IsZero, InPlace, ValidPiece, Meaning, PairMeaning;
    if pieces == [] {
    } else {
      KindsDiffer(pieces[0]);
      FirstPlaces(pieces);
      assert ValidPiece(pieces[0]);
      if IsHigh(pieces[0]) && |pieces| > 1 && IsLow(pieces[1]) {
        KindsDiffer(pieces[1]);
        MeansIffPaired(pieces[2..]);
        PlacesOfRest(pieces, 2);
      } else if !IsHigh(pieces[0]) {
        MeansIffPaired(pieces[1..]);
        PlacesOfRest(pieces, 1);
      }
    }
  }

  datatype NumberText = NumberText(minus: bool, whole: string, fraction: string, exponent: string)

  predicate AllDigits(s: string) {
    s != "" && forall i :: 0 <= i < |s| ==> IsDigit(s[i])
  }

  predicate ValidExponent(s: string) {
    s == ""
    || (&& |s| >= 2 && (s[0] == 'e' || s[0] == 'E')
        && (AllDigits(s[1..]) || ((s[1] == '+' || s[1] == '-') && AllDigits(s[2..]))))
  }

  predicate ValidNumber(n: NumberText) {
    && AllDigits(n.whole) && (n.whole[0] == '0' ==> |n.whole| == 1)
    && (n.fraction == "" || (n.fraction[0] == '.' && AllDigits(n.fraction[1..])))
    && ValidExponent(n.exponent)
  }

  function PrintNumber(n: NumberText): string {
    (if n.minus then "-" else "") + n.whole + n.fraction + n.exponent
  }

  datatype Json =
    | Word(ws: string, word: string)
    | Number(ws: string, number: NumberText)
    | Text(ws: string, pieces: seq<Piece>)
    | List(ws: string, items: Items, close: string)
    | Record(ws: string, fields: Fields, close: string)

  datatype Items = NoItems | Item(value: Json, comma: string, rest: Items)

  datatype Fields = NoFields | Field(keyWs: string, key: seq<Piece>, colon: string, field: Json, comma: string, rest: Fields)

  predicate Blank(s: string) {
    forall i :: 0 <= i < |s| ==> IsSpace(s[i])
  }

  ghost predicate Valid(v: Json) {
    Blank(v.ws)
    && (match v
        case Word(_, word) => word == "true" || word == "false" || word == "null"
        case Number(_, number) => ValidNumber(number)
        case Text(_, pieces) => ValidPieces(pieces)
        case List(_, items, close) => Blank(close) && ValidItems(items)
        case Record(_, fields, close) => Blank(close) && ValidFields(fields))
  }

  ghost predicate ValidItems(items: Items) {
    items.Item? ==> Valid(items.value) && Blank(items.comma) && ValidItems(items.rest)
  }

  ghost predicate ValidFields(fields: Fields) {
    fields.Field? ==>
      && Blank(fields.keyWs) && ValidPieces(fields.key) && Blank(fields.colon) && Valid(fields.field)
      && Blank(fields.comma) && ValidFields(fields.rest)
  }

  /** Every string in the value says something. */
  ghost predicate Decodable(v: Json)
    requires Valid(v)
  {
    match v
    case Text(_, pieces) => Meanings(pieces).Some?
    case List(_, items, _) => DecodableItems(items)
    case Record(_, fields, _) => DecodableFields(fields)
    case _ => true
  }

  ghost predicate DecodableItems(items: Items)
    requires ValidItems(items)
  {
    items.Item? ==> Decodable(items.value) && DecodableItems(items.rest)
  }

  ghost predicate DecodableFields(fields: Fields)
    requires ValidFields(fields)
  {
    fields.Field? ==> Meanings(fields.key).Some? && Decodable(fields.field) && DecodableFields(fields.rest)
  }

  function Quoted(pieces: seq<Piece>): string {
    "\"" + PrintPieces(pieces) + "\""
  }

  function Print(v: Json): string {
    match v
    case Word(ws, word) => ws + word
    case Number(ws, number) => ws + PrintNumber(number)
    case Text(ws, pieces) => ws + Quoted(pieces)
    case List(ws, items, close) => ws + ("[" + (PrintItems(items) + (close + "]")))
    case Record(ws, fields, close) => ws + ("{" + (PrintFields(fields) + (close + "}")))
  }

  function PrintItems(items: Items): string {
    match items
    case NoItems => ""
    case Item(value, comma, rest) =>
      Print(value) + (if rest.NoItems? then "" else comma + ("," + PrintItems(rest)))
  }

  function PrintFields(fields: Fields): string {
    match fields
    case NoFields => ""
    case Field(keyWs, key, colon, field, comma, rest) =>
      keyWs + (Quoted(key) + (colon + (":" + (Print(field)
        + (if rest.NoFields? then "" else comma + ("," + PrintFields(rest)))))))
  }

  /** How many levels of non-empty lists and records are below. */
  function Depth(v: Json): nat {
    match v
    case List(_, items, _) => if items.NoItems? then 0 else 1 + DepthItems(items)
    case Record(_, fields, _) => if fields.NoFields? then 0 else 1 + DepthFields(fields)
    case _ => 0
  }

  function DepthItems(items: Items): nat {
    match items
    case NoItems => 0
    case Item(value, _, rest) => Max(Depth(value), DepthItems(rest))
  }

  function DepthFields(fields: Fields): nat {
    match fields
    case NoFields => 0
    case Field(_, _, _, field, _, rest) => Max(Depth(field), DepthFields(rest))
  }

  function Max(a: nat, b: nat): nat { if a < b then b else a }

  // ----- Strings decode to what they say -----

  lemma HasConcat(text: string, pos: nat, a: string, b: string)
    ensures Has(text, pos, a + b) <==> Has(text, pos, a) && Has(text, pos + |a|, b)
  {
    var ab := a + b;
    if Has(text, pos, ab) {
      assert text[pos..pos + |a|] == text[pos..pos + |ab|][..|a|] == a;
      assert text[pos + |a|..pos + |a| + |b|] == text[pos..pos + |ab|][|a|..] == b;
    }
    if Has(text, pos, a) && Has(text, pos + |a|, b) {
      assert text[pos..pos + |ab|] == text[pos..pos + |a|] + text[pos + |a|..pos + |a| + |b|];
    }
  }

  lemma HasOne(text: string, pos: nat, c: char)
    ensures Has(text, pos, [c]) <==> At(text, pos, c)
  {
    if At(text, pos, c) { assert text[pos..pos + 1] == [c]; }
    if Has(text, pos, [c]) { assert text[pos..pos + 1][0] == c; }
  }

  lemma Hex4Exact(text: string, pos: nat, hex: string)
    requires HexDigits(hex) && Has(text, pos, hex)
    ensures pos + 4 <= |text| && Hex4(text, pos) == Some(HexCode(hex))
  {
    hide HexCode;
  }

  lemma HasMeans(text: string, pos: nat, s: string)
    requires Has(text, pos, s)
    ensures pos + |s| <= |text| && text[pos..pos + |s|] == s
  {
  }

  lemma HasTwo(text: string, pos: nat, a: char, b: char)
    ensures Has(text, pos, [a, b]) <==> At(text, pos, a) && At(text, pos + 1, b)
  {
    assert [a, b] == [a] + [b];
    HasConcat(text, pos, [a], [b]);
    HasOne(text, pos, a);
    HasOne(text, pos + 1, b);
  }

  lemma PieceLength(p: Piece)
    requires ValidPiece(p)
    ensures |PrintPiece(p)| == match p case Raw(_) => 1 case Short(_) => 2 case Unit(_) => 6
  {
    hide HexCode;
  }

  /** A piece that is not the first half of a pair is read on its own. */
  lemma ElementExact(text: string, pos: nat, p: Piece)
    requires ValidPiece(p) && !IsHigh(p) && Has(text, pos, PrintPiece(p))
    ensures pos < |text| && text[pos] != '"'
    ensures Element(text, pos)
         == if Meaning(p).Some? then Some(Read(Meaning(p).value, pos + |PrintPiece(p)|)) else None
  {
    hide HexCode, HexDigits, Hex4, Utf8, Has;
    PieceLength(p);
    match p
    case Raw(c) => HasOne(text, pos, c);
    case Short(e) => HasTwo(text, pos, '\\', e);
    case Unit(hex) => UnitStart(text, pos, hex);
  }

  lemma UnitStart(text: string, pos: nat, hex: string)
    requires HexDigits(hex) && Has(text, pos, PrintPiece(Unit(hex)))
    ensures pos + 6 <= |text| && text[pos] == '\\' && text[pos + 1] == 'u' && Hex4(text, pos + 2) == Some(HexCode(hex))
  {
    hide HexCode, HexDigits, Has;
    HasConcat(text, pos, ['\\', 'u'], hex);
    HasTwo(text, pos, '\\', 'u');
    Hex4Exact(text, pos + 2, hex);
  }

  /** What the reader finds behind the first half of a pair. */
  lemma AfterHigh(text: string, pos: nat, rest: seq<Piece>)
    requires ValidPieces(rest) && Has(text, pos, PrintPieces(rest) + "\"")
    ensures pos <= |text|
    ensures At(text, pos, '\\') && At(text, pos + 1, 'u') <==> rest != [] && rest[0].Unit?
    ensures rest != [] && rest[0].Unit? ==> pos + 6 <= |text| && Hex4(text, pos + 2) == Some(HexCode(rest[0].hex))
  {
    hide HexCode, Hex4, Has;
    if rest == [] {
      assert PrintPieces(rest) + "\"" == ['"'];
      HasOne(text, pos, '"');
    } else {
      var first := PrintPiece(rest[0]);
      assert PrintPieces(rest) + "\"" == first + (PrintPieces(rest[1..]) + "\"");
      HasConcat(text, pos, first, PrintPieces(rest[1..]) + "\"");
      match rest[0]
      case Raw(c) => HasOne(text, pos, c);
      case Short(e) => HasTwo(text, pos, '\\', e);
      case Unit(hex) => UnitStart(text, pos, hex);
    }
  }

  lemma HighExact(text: string, pos: nat, pieces: seq<Piece>)
    requires ValidPieces(pieces) && pieces != [] && IsHigh(pieces[0])
    requires Has(text, pos, PrintPiece(pieces[0])) && Has(text, pos + 6, PrintPieces(pieces[1..]) + "\"")
    ensures pos < |text| && text[pos] == '\\'
    ensures Element(text, pos) == if |pieces| > 1 && IsLow(pieces[1])
                                  then Some(Read(PairMeaning(pieces[0], pieces[1]), pos + 12)) else None
  {
    assert ValidPiece(pieces[0]);
    assert |pieces| > 1 && pieces[1].Unit? ==> ValidPiece(pieces[1]) && HexDigits(pieces[1].hex);
    hide HexCode, HexDigits, Hex4, Utf8, Has, Paired, PrintPieces, PrintPiece;
    UnitStart(text, pos, pieces[0].hex);
    AfterHigh(text, pos + 6, pieces[1..]);
    if |pieces| > 1 && pieces[1].Unit? {
      assert pieces[1..][0] == pieces[1];
    }
  }

  lemma PrintFirst(pieces: seq<Piece>)
    requires ValidPieces(pieces) && pieces != []
    ensures PrintPieces(pieces) == PrintPiece(pieces[0]) + PrintPieces(pieces[1..])
    ensures PrintPieces(pieces) + "\"" == PrintPiece(pieces[0]) + (PrintPieces(pieces[1..]) + "\"")
    ensures pieces[0].Unit? ==> |PrintPiece(pieces[0])| == 6
    ensures ValidPieces(pieces[1..]) && ValidPiece(pieces[0])
  {
    hide PrintPiece, ValidPiece;
    assert ValidPiece(pieces[0]);
    PieceLength(pieces[0]);
  }

  /** What the reader makes of a string behind its opening quote. */
  ghost predicate Decodes(text: string, pos: nat, pieces: seq<Piece>)
    requires pos <= |text| && ValidPieces(pieces)
  {
    Body(text, pos) == if Meanings(pieces).Some?
                       then Some(Read(Meanings(pieces).value, pos + |PrintPieces(pieces)| + 1)) else None
  }

  lemma OneDecodes(text: string, pos: nat, pieces: seq<Piece>)
    requires pos <= |text| && ValidPieces(pieces) && pieces != [] && !IsHigh(pieces[0])
    requires Has(text, pos, PrintPiece(pieces[0])) && pos + |PrintPiece(pieces[0])| <= |text|
    requires Decodes(text, pos + |PrintPiece(pieces[0])|, pieces[1..])
    ensures Decodes(text, pos, pieces)
  {
    hide Has, Element, ValidPiece, Meaning, PrintPiece, IsHigh, IsLow, PairMeaning, PrintPieces;
    PrintFirst(pieces);
    ElementExact(text, pos, pieces[0]);
  }

  lemma HighDecodes(text: string, pos: nat, pieces: seq<Piece>)
    requires pos <= |text| && ValidPieces(pieces) && pieces != [] && IsHigh(pieces[0])
    requires Has(text, pos, PrintPiece(pieces[0])) && Has(text, pos + 6, PrintPieces(pieces[1..]) + "\"")
    requires |pieces| > 1 && IsLow(pieces[1]) ==> pos + 12 <= |text| && Decodes(text, pos + 12, pieces[2..])
    ensures Decodes(text, pos, pieces)
  {
    hide Has, Element, ValidPiece, Meaning, PrintPiece, PairMeaning, PrintPieces, HexCode, HexDigits;
    PrintFirst(pieces);
    HighExact(text, pos, pieces);
    if |pieces| > 1 && IsLow(pieces[1]) {
      PrintFirst(pieces[1..]);
      assert pieces[1..][1..] == pieces[2..];
    }
  }

  /** Decoding undoes escaping, for every way to write each character, surrogate pairs included, and
      refuses the strings of the grammar that say nothing. */
  lemma {:induction false} BodyExact(text: string, pos: nat, pieces: seq<Piece>)
    requires pos <= |text| && ValidPieces(pieces) && Has(text, pos, PrintPieces(pieces) + "\"")
    ensures Body(text, pos) == if Meanings(pieces).Some?
                               then Some(Read(Meanings(pieces).value, pos + |PrintPieces(pieces)| + 1)) else None
    decreases |pieces|
  {
    hide Has, ValidPiece, PrintPiece, Meanings, Body, PrintPieces, IsHigh, IsLow;
    if pieces == [] {
      NothingDecodes(text, pos);
    } else {
      PrintFirst(pieces);
      var first := PrintPiece(pieces[0]);
      HasConcat(text, pos, first, PrintPieces(pieces[1..]) + "\"");
      HasMeans(text, pos + |first|, PrintPieces(pieces[1..]) + "\"");
      if !IsHigh(pieces[0]) {
        BodyExact(text, pos + |first|, pieces[1..]);
        OneDecodes(text, pos, pieces);
      } else {
        HalvesAreUnits(pieces[0]);
        if |pieces| > 1 && IsLow(pieces[1]) {
          assert pieces[1..][0] == pieces[1] && pieces[1..][1..] == pieces[2..];
          HalvesAreUnits(pieces[1]);
          PrintFirst(pieces[1..]);
          HasConcat(text, pos + 6, PrintPiece(pieces[1]), PrintPieces(pieces[2..]) + "\"");
          HasMeans(text, pos + 12, PrintPieces(pieces[2..]) + "\"");
          BodyExact(text, pos + 12, pieces[2..]);
        }
        HighDecodes(text, pos, pieces);
      }
    }
  }

  lemma NothingDecodes(text: string, pos: nat)
    requires pos <= |text| && Has(text, pos, PrintPieces([]) + "\"")
    ensures Decodes(text, pos, [])
  {
    assert PrintPieces([]) + "\"" == ['"'];
    HasOne(text, pos, '"');
  }

  // ----- UTF-8 -----

  /** Reading UTF-8 back (section 3 of RFC 3629). */
  function FromUtf8(s: string): int {
    if |s| == 1 then s[0] as int
    else if |s| == 2 then (s[0] as int - 0xC0) * 64 + (s[1] as int - 0x80)
    else if |s| == 3 then ((s[0] as int - 0xE0) * 64 + (s[1] as int - 0x80)) * 64 + (s[2] as int - 0x80)
    else if |s| == 4 then
      (((s[0] as int - 0xF0) * 64 + (s[1] as int - 0x80)) * 64 + (s[2] as int - 0x80)) * 64 + (s[3] as int - 0x80)
    else -1
  }

  lemma SixtyFours(code: nat)
    ensures code == (code / 64) * 64 + code % 64
    ensures code / 64 == (code / 4096) * 64 + code / 64 % 64
    ensures code / 4096 == (code / 0x4_0000) * 64 + code / 4096 % 64
  {
    assert code / 64 / 64 == code / 4096;
    assert code / 4096 / 64 == code / 0x4_0000;
  }

  /** Every code point is written in the shortest form, with the right lead and continuation bytes,
      and reads back as itself. */
  lemma Utf8IsUtf8(code: nat)
    requires code < 0x11_0000
    ensures var s := Utf8(code);
      && FromUtf8(s) == code
      && |s| == (if code < 0x80 then 1 else if code < 0x800 then 2 else if code < 0x1_0000 then 3 else 4)
      && (forall i :: 1 <= i < |s| ==> 0x80 <= s[i] as int < 0xC0)
      && (|s| == 2 ==> 0xC2 <= s[0] as int < 0xE0) && (|s| == 3 ==> 0xE0 <= s[0] as int < 0xF0)
      && (|s| == 4 ==> 0xF0 <= s[0] as int < 0xF5)
  {
    SixtyFours(code);
  }

  /** No decoded string contains a zero byte, so as a C string it is whole. */
  lemma {:induction false} DecodedHasNoNul(text: string, pos: nat)
    requires pos <= |text| && Body(text, pos).Some?
    ensures '\0' !in Body(text, pos).value.content
    decreases |text| - pos
  {
    hide Element;
    if text[pos] == '"' {
    } else {
      ElementHasNoNul(text, pos);
      DecodedHasNoNul(text, Element(text, pos).value.next);
    }
  }

  lemma ElementHasNoNul(text: string, pos: nat)
    requires pos < |text| && Element(text, pos).Some?
    ensures '\0' !in Element(text, pos).value.content
  {
    hide Hex4, Utf8;
    if text[pos] == '\\' && pos + 1 < |text| && text[pos + 1] == 'u' {
      var code := Hex4(text, pos + 2).value;
      if HighSurrogate(code) {
        Utf8HasNoNul(Paired(code, Hex4(text, pos + 8).value));
      } else {
        Utf8HasNoNul(code);
      }
    }
  }

  lemma Utf8HasNoNul(code: nat)
    requires 0 < code < 0x11_0000
    ensures '\0' !in Utf8(code)
  {
  }

  // ----- Skipping consumes exactly one value -----

  lemma SpaceExact(text: string, pos: nat, ws: string)
    requires Blank(ws) && Has(text, pos, ws) && (pos + |ws| < |text| ==> !IsSpace(text[pos + |ws|]))
    ensures Space(text, pos) == pos + |ws|
  {
    hide Space;
    var r := Space(text, pos);
    forall i | pos <= i < pos + |ws| ensures IsSpace(text[i]) {
      assert text[i] == text[pos..pos + |ws|][i - pos];
    }
  }

  lemma DigitsExact(text: string, pos: nat, s: string)
    requires AllDigits(s) && Has(text, pos, s) && !DigitAt(text, pos + |s|)
    ensures DigitAt(text, pos) && Digits(text, pos) == pos + |s|
  {
    hide Digits;
    forall i | pos <= i < pos + |s| ensures DigitAt(text, i) {
      assert text[i] == text[pos..pos + |s|][i - pos];
    }
    var r := Digits(text, pos);
  }

  /** Nothing at pos can continue a number. */
  predicate Delimited(text: string, pos: nat) {
    pos < |text| ==> !IsDigit(text[pos]) && text[pos] != '.' && text[pos] != 'e' && text[pos] != 'E'
  }

  lemma FractionExact(text: string, pos: nat, fraction: string, exponent: string)
    requires fraction == "" || (fraction[0] == '.' && AllDigits(fraction[1..]))
    requires ValidExponent(exponent) && Has(text, pos, fraction + exponent)
    requires Delimited(text, pos + |fraction| + |exponent|)
    ensures pos + |fraction| <= |text| && Fraction(text, pos) == Some(pos + |fraction|)
  {
    hide Has, Digits, AllDigits;
    HasConcat(text, pos, fraction, exponent);
    HasMeans(text, pos, fraction);
    HasMeans(text, pos + |fraction|, exponent);
    ExponentStart(text, pos + |fraction|, exponent);
    if fraction != "" {
      assert fraction == ['.'] + fraction[1..];
      HasConcat(text, pos, ['.'], fraction[1..]);
      HasOne(text, pos, '.');
      DigitsExact(text, pos + 1, fraction[1..]);
    }
  }

  lemma ExponentStart(text: string, pos: nat, exponent: string)
    requires ValidExponent(exponent) && pos + |exponent| <= |text| && text[pos..pos + |exponent|] == exponent
    requires Delimited(text, pos + |exponent|)
    ensures !DigitAt(text, pos) && !At(text, pos, '.')
    ensures exponent == "" ==> !At(text, pos, 'e') && !At(text, pos, 'E')
  {
    if exponent != "" { assert text[pos] == text[pos..pos + |exponent|][0]; }
  }

  lemma ExponentExact(text: string, pos: nat, exponent: string)
    requires ValidExponent(exponent) && Has(text, pos, exponent) && Delimited(text, pos + |exponent|)
    ensures pos + |exponent| <= |text| && Exponent(text, pos) == Some(pos + |exponent|)
  {
    hide Has, Digits, AllDigits;
    HasMeans(text, pos, exponent);
    ExponentStart(text, pos, exponent);
    if exponent != "" {
      var e := exponent[0];
      assert exponent == [e] + exponent[1..];
      HasConcat(text, pos, [e], exponent[1..]);
      HasOne(text, pos, e);
      if AllDigits(exponent[1..]) {
        DigitsExact(text, pos + 1, exponent[1..]);
        DigitIsNoSign(text, pos + 1);
      } else {
        assert exponent[1..] == [exponent[1]] + exponent[2..];
        HasConcat(text, pos + 1, [exponent[1]], exponent[2..]);
        HasOne(text, pos + 1, exponent[1]);
        DigitsExact(text, pos + 2, exponent[2..]);
      }
    }
  }

  lemma DigitIsNoSign(text: string, pos: nat)
    requires DigitAt(text, pos)
    ensures !At(text, pos, '+') && !At(text, pos, '-')
  {
  }

  lemma WholeExact(text: string, pos: nat, whole: string)
    requires AllDigits(whole) && (whole[0] == '0' ==> |whole| == 1) && Has(text, pos, whole)
    requires whole[0] != '0' ==> !DigitAt(text, pos + |whole|)
    ensures DigitAt(text, pos) && (if text[pos] == '0' then pos + 1 else Digits(text, pos)) == pos + |whole|
    ensures !At(text, pos, '-')
  {
    hide Digits;
    assert text[pos] == text[pos..pos + |whole|][0] == whole[0];
    if whole[0] != '0' { DigitsExact(text, pos, whole); }
  }

  /** A number before a delimiter is consumed exactly. */
  lemma NumberExact(text: string, pos: nat, n: NumberText)
    requires pos <= |text| && ValidNumber(n) && Has(text, pos, PrintNumber(n)) && Delimited(text, pos + |PrintNumber(n)|)
    ensures SkipNumber(text, pos) == Some(pos + |PrintNumber(n)|)
  {
    hide Has, Digits, AllDigits, Fraction, Exponent, ValidExponent, Delimited;
    var sign := if n.minus then "-" else "";
    var tail := n.fraction + n.exponent;
    assert PrintNumber(n) == sign + (n.whole + tail);
    HasConcat(text, pos, sign, n.whole + tail);
    HasConcat(text, pos + |sign|, n.whole, tail);
    if n.minus { HasOne(text, pos, '-'); }
    var p := pos + |sign|;
    TailIsNoDigit(text, p + |n.whole|, n.fraction, n.exponent);
    WholeExact(text, p, n.whole);
    FractionExact(text, p + |n.whole|, n.fraction, n.exponent);
    HasConcat(text, p + |n.whole|, n.fraction, n.exponent);
    ExponentExact(text, p + |n.whole| + |n.fraction|, n.exponent);
  }

  lemma TailIsNoDigit(text: string, pos: nat, fraction: string, exponent: string)
    requires fraction == "" || (fraction[0] == '.' && AllDigits(fraction[1..]))
    requires ValidExponent(exponent) && Has(text, pos, fraction + exponent)
    requires Delimited(text, pos + |fraction| + |exponent|)
    ensures !DigitAt(text, pos) && pos <= |text|
  {
    hide Has, AllDigits;
    HasConcat(text, pos, fraction, exponent);
    HasMeans(text, pos, fraction);
    HasMeans(text, pos + |fraction|, exponent);
    ExponentStart(text, pos + |fraction|, exponent);
    if fraction != "" {
      assert text[pos] == text[pos..pos + |fraction|][0];
    }
  }

  /** A value's text begins, after its white space, with a character that is not white space, not a
      comma, and not a closing bracket. */
  predicate StartsValue(text: string, pos: nat) {
    pos < |text| && !IsSpace(text[pos]) && text[pos] != ',' && text[pos] != ']' && text[pos] != '}'
  }

  function Core(v: Json): string {
    match v
    case Word(_, word) => word
    case Number(_, number) => PrintNumber(number)
    case Text(_, pieces) => Quoted(pieces)
    case List(_, items, close) => "[" + (PrintItems(items) + (close + "]"))
    case Record(_, fields, close) => "{" + (PrintFields(fields) + (close + "}"))
  }

  lemma PrintIsCore(v: Json)
    ensures Print(v) == v.ws + Core(v)
  {
    hide PrintItems, PrintFields, PrintNumber, Quoted;
  }

  lemma CoreStarts(v: Json)
    requires Valid(v)
    ensures Core(v) != "" && StartsValue(Core(v), 0)
    ensures Core(v)[0] != '"' || v.Text?
    ensures (Core(v)[0] == '{' <==> v.Record?) && (Core(v)[0] == '[' <==> v.List?) && (Core(v)[0] == '"' <==> v.Text?)
    ensures v.Number? ==> IsDigit(Core(v)[0]) || Core(v)[0] == '-'
  {
    hide PrintItems, PrintFields, PrintPieces, ValidItems, ValidFields;
    if v.Number? {
      assert PrintNumber(v.number)[0] == if v.number.minus then '-' else v.number.whole[0];
      assert IsDigit(v.number.whole[0]);
    }
  }

  lemma ValueStarts(text: string, pos: nat, v: Json)
    requires Valid(v) && Has(text, pos, Print(v))
    ensures Has(text, pos, v.ws) && Has(text, pos + |v.ws|, Core(v))
    ensures pos + |v.ws| < |text| && text[pos + |v.ws|] == Core(v)[0] && StartsValue(text, pos + |v.ws|)
    ensures pos <= |text| && Space(text, pos) == pos + |v.ws|
  {
    hide Print, Core, Has, Space;
    PrintIsCore(v);
    HasConcat(text, pos, v.ws, Core(v));
    CoreStarts(v);
    HasMeans(text, pos + |v.ws|, Core(v));
    assert text[pos + |v.ws|] == text[pos + |v.ws|..pos + |v.ws| + |Core(v)|][0];
    ValidWs(v);
    SpaceExact(text, pos, v.ws);
  }

  lemma ValidWs(v: Json)
    requires Valid(v)
    ensures Blank(v.ws)
  {
  }

  lemma QuotedIs(pieces: seq<Piece>)
    ensures Quoted(pieces) == ['"'] + (PrintPieces(pieces) + "\"") && |Quoted(pieces)| == |PrintPieces(pieces)| + 2
  {
    hide PrintPieces;
  }

  lemma StringExact(text: string, pos: nat, pieces: seq<Piece>)
    requires ValidPieces(pieces) && Has(text, pos, Quoted(pieces))
    ensures At(text, pos, '"') && pos + |Quoted(pieces)| <= |text|
    ensures Body(text, pos + 1)
         == if Meanings(pieces).Some? then Some(Read(Meanings(pieces).value, pos + |Quoted(pieces)|)) else None
  {
    hide Has, Body, PrintPieces, Meanings, Quoted, ValidPieces;
    var inner := PrintPieces(pieces) + "\"";
    QuotedIs(pieces);
    HasConcat(text, pos, ['"'], inner);
    HasOne(text, pos, '"');
    HasMeans(text, pos + 1, inner);
    HasMeans(text, pos, Quoted(pieces));
    BodyExact(text, pos + 1, pieces);
  }

  lemma WordExact(text: string, pos: nat, word: string)
    requires (word == "true" || word == "false" || word == "null") && Has(text, pos, word)
    ensures pos < |text| && text[pos] == word[0]
    ensures word == "true" ==> Literal(text, pos, "true") == Some(pos + 4)
    ensures word == "false" ==> Literal(text, pos, "false") == Some(pos + 5)
    ensures word == "null" ==> Literal(text, pos, "null") == Some(pos + 4)
  {
    assert text[pos] == text[pos..pos + |word|][0];
  }

  /** White space and then a given closing character. */
  lemma CloseExact(text: string, pos: nat, ws: string, c: char)
    requires Blank(ws) && Has(text, pos, ws + [c]) && !IsSpace(c)
    ensures pos <= |text| && Space(text, pos) == pos + |ws| && At(text, pos + |ws|, c)
    ensures c == ',' || c == ']' || c == '}' || c == ':' ==> Delimited(text, pos)
  {
    hide Space, Has;
    HasConcat(text, pos, ws, [c]);
    HasOne(text, pos + |ws|, c);
    HasMeans(text, pos, ws);
    assert SpaceExactNeeds(text, pos, ws) by { HasMeans(text, pos, ws); }
    SpaceExact(text, pos, ws);
    if ws != "" { assert text[pos] == text[pos..pos + |ws|][0]; }
  }

  predicate SpaceExactNeeds(text: string, pos: nat, ws: string) {
    pos + |ws| <= |text| && text[pos..pos + |ws|] == ws
  }

  /** A list behind its opening bracket. */
  function ListFrom(text: string, pos: nat, depth: nat): Option<nat>
    requires pos <= |text|
  {
    if At(text, Space(text, pos), ']') then Some(Space(text, pos) + 1) else SkipItems(text, Space(text, pos), depth + 1)
  }

  function RecordFrom(text: string, pos: nat, depth: nat): Option<nat>
    requires pos <= |text|
  {
    if At(text, Space(text, pos), '}') then Some(Space(text, pos) + 1) else SkipFields(text, Space(text, pos), depth + 1)
  }

  /** What skipValue does, by the first character behind the white space. */
  lemma SkipByFirst(text: string, pos: nat, depth: nat, p: nat)
    requires pos <= |text| && depth <= MAX_DEPTH && p == Space(text, pos) < |text|
    ensures text[p] == '"' ==>
      Skip(text, pos, depth) == if Body(text, p + 1).Some? then Some(Body(text, p + 1).value.next) else None
    ensures text[p] == '{' ==> Skip(text, pos, depth) == RecordFrom(text, p + 1, depth)
    ensures text[p] == '[' ==> Skip(text, pos, depth) == ListFrom(text, p + 1, depth)
    ensures text[p] == 't' ==> Skip(text, pos, depth) == Literal(text, p, "true")
    ensures text[p] == 'f' ==> Skip(text, pos, depth) == Literal(text, p, "false")
    ensures text[p] == 'n' ==> Skip(text, pos, depth) == Literal(text, p, "null")
    ensures text[p] != '"' && text[p] != '{' && text[p] != '[' && text[p] != 't' && text[p] != 'f' && text[p] != 'n' ==>
      Skip(text, pos, depth) == SkipNumber(text, p)
  {
    hide Space, Body, SkipNumber, Literal, SkipItems, SkipFields;
  }

  lemma ListExact(text: string, pos: nat, depth: nat, items: Items, close: string)
    requires ValidItems(items) && Blank(close) && Has(text, pos, PrintItems(items) + (close + "]"))
    ensures pos <= |text|
    ensures ListFrom(text, pos, depth)
         == if DecodableItems(items) && (items.Item? ==> depth + 1 + DepthItems(items) <= MAX_DEPTH)
            then Some(pos + |PrintItems(items)| + |close| + 1) else None
    decreases items, 1
  {
    hide Has, Space, SkipItems, Delimited;
    if items.NoItems? {
      assert PrintItems(items) + (close + "]") == close + "]";
      CloseExact(text, pos, close, ']');
    } else {
      SpaceBeforeItems(text, pos, items, close);
      ItemsExact(text, pos, depth + 1, items, close);
      SkipItemsFromSpace(text, pos, depth + 1);
    }
  }

  lemma RecordExact(text: string, pos: nat, depth: nat, fields: Fields, close: string)
    requires ValidFields(fields) && Blank(close) && Has(text, pos, PrintFields(fields) + (close + "}"))
    ensures pos <= |text|
    ensures RecordFrom(text, pos, depth)
         == if DecodableFields(fields) && (fields.Field? ==> depth + 1 + DepthFields(fields) <= MAX_DEPTH)
            then Some(pos + |PrintFields(fields)| + |close| + 1) else None
    decreases fields, 1
  {
    hide Has, Space, SkipFields, Delimited;
    if fields.NoFields? {
      assert PrintFields(fields) + (close + "}") == close + "}";
      CloseExact(text, pos, close, '}');
    } else {
      SpaceBeforeFields(text, pos, fields, close);
      FieldsExact(text, pos, depth + 1, fields, close);
      SkipFieldsFromSpace(text, pos, depth + 1);
    }
  }

  /** For every value of the grammar, before a delimiter: skipValue consumes exactly its text if it is
      nested at most 32 deep and all its strings say something, and refuses it otherwise. */
  lemma {:induction false} SkipExact(text: string, pos: nat, depth: nat, v: Json)
    requires Valid(v) && Has(text, pos, Print(v)) && Delimited(text, pos + |Print(v)|)
    ensures pos <= |text|
    ensures Skip(text, pos, depth)
         == if Decodable(v) && depth + Depth(v) <= MAX_DEPTH then Some(pos + |Print(v)|) else None
    decreases v, 0
  {
    hide Has, Space, Body, Skip, Print, Delimited, Core, ListFrom, RecordFrom, Valid;
    var p := ValueHead(text, pos, v);
    if depth > MAX_DEPTH {
      SkipTooDeep(text, pos, depth);
    } else {
      SkipByFirst(text, pos, depth, p);
      match v
      case Word(_, word) => ScalarExact(text, p, v);
      case Number(_, number) => ScalarExact(text, p, v);
      case Text(_, pieces) => ScalarExact(text, p, v);
      case List(_, items, close) =>
        ListCore(text, p, v);
        ListExact(text, p + 1, depth, items, close);
      case Record(_, fields, close) =>
        RecordCore(text, p, v);
        RecordExact(text, p + 1, depth, fields, close);
    }
  }

  lemma SkipTooDeep(text: string, pos: nat, depth: nat)
    requires pos <= |text| && depth > MAX_DEPTH
    ensures Skip(text, pos, depth) == None
  {
  }

  /** So the reader refuses some texts the grammar allows: a string whose escape is zero. */
  lemma ZeroEscapeIsRefused()
    ensures var v := Text("", [Unit("0000")]);
      Valid(v) && Print(v) == "\"\\u0000\"" && Depth(v) == 0 && Skip(Print(v), 0, 0) == None
  {
    hide Skip;
    var v := Text("", [Unit("0000")]);
    assert HexCode("0000") == 0;
    assert [Unit("0000")][1..] == [];
    assert PrintPieces([Unit("0000")]) == "\\u0000" + PrintPieces([]);
    assert Print(v) == "\"\\u0000\"";
    assert Print(v)[0..|Print(v)|] == Print(v);
    SkipExact(Print(v), 0, 0, v);
  }

  /** Where the value begins behind its white space, and with which character. */
  lemma ValueHead(text: string, pos: nat, v: Json) returns (p: nat)
    requires Valid(v) && Has(text, pos, Print(v))
    ensures pos <= |text| && p == Space(text, pos) < |text|
    ensures Has(text, p, Core(v)) && p + |Core(v)| == pos + |Print(v)|
    ensures (text[p] == '{' <==> v.Record?) && (text[p] == '[' <==> v.List?) && (text[p] == '"' <==> v.Text?)
    ensures v.Number? ==> IsDigit(text[p]) || text[p] == '-'
    ensures v.Word? ==> v.word != "" && text[p] == v.word[0]
  {
    hide Has, Space, Print, Core;
    ValueStarts(text, pos, v);
    PrintIsCore(v);
    CoreStarts(v);
    if v.Word? { WordCore(v); }
    p := pos + |v.ws|;
  }

  lemma WordCore(v: Json)
    requires Valid(v) && v.Word?
    ensures Core(v) == v.word && v.word != ""
  {
  }

  lemma ScalarExact(text: string, p: nat, v: Json)
    requires Valid(v) && p < |text| && Has(text, p, Core(v)) && Delimited(text, p + |Core(v)|)
    ensures v.Word? ==>
      && (text[p] == 't' || text[p] == 'f' || text[p] == 'n')
      && (text[p] == 't' ==> Literal(text, p, "true") == Some(p + |Core(v)|))
      && (text[p] == 'f' ==> Literal(text, p, "false") == Some(p + |Core(v)|))
      && (text[p] == 'n' ==> Literal(text, p, "null") == Some(p + |Core(v)|))
    ensures v.Number? ==> SkipNumber(text, p) == Some(p + |Core(v)|)
    ensures v.Text? && Meanings(v.pieces).Some? ==> Body(text, p + 1) == Some(Read(Meanings(v.pieces).value, p + |Core(v)|))
    ensures v.Text? && Meanings(v.pieces).None? ==> Body(text, p + 1) == None
  {
    hide Has, Body, SkipNumber, Literal, Delimited, Quoted, PrintNumber, PrintItems, PrintFields;
    match v
    case Word(_, word) => WordExact(text, p, word);
    case Number(_, number) => NumberExact(text, p, number);
    case Text(_, pieces) => StringExact(text, p, pieces);
    case _ =>
  }

  lemma ListCore(text: string, p: nat, v: Json)
    requires Valid(v) && v.List? && Has(text, p, Core(v))
    ensures ValidItems(v.items) && Blank(v.close) && Has(text, p + 1, PrintItems(v.items) + (v.close + "]"))
    ensures |Core(v)| == 1 + |PrintItems(v.items)| + |v.close| + 1
  {
    hide Has, PrintItems;
    HasConcat(text, p, "[", PrintItems(v.items) + (v.close + "]"));
  }

  lemma RecordCore(text: string, p: nat, v: Json)
    requires Valid(v) && v.Record? && Has(text, p, Core(v))
    ensures ValidFields(v.fields) && Blank(v.close) && Has(text, p + 1, PrintFields(v.fields) + (v.close + "}"))
    ensures |Core(v)| == 1 + |PrintFields(v.fields)| + |v.close| + 1
  {
    hide Has, PrintFields;
    HasConcat(text, p, "{", PrintFields(v.fields) + (v.close + "}"));
  }

  lemma SpaceTwice(text: string, pos: nat)
    requires pos <= |text|
    ensures Space(text, Space(text, pos)) == Space(text, pos)
  {
  }

  lemma SkipItemsFromSpace(text: string, pos: nat, depth: nat)
    requires pos <= |text|
    ensures SkipItems(text, Space(text, pos), depth) == SkipItems(text, pos, depth)
  {
    hide Space, Body, SkipNumber, Literal, SkipFields;
    SpaceTwice(text, pos);
  }

  lemma StringFromSpace(text: string, pos: nat)
    requires pos <= |text|
    ensures StringAt(text, Space(text, pos)) == StringAt(text, pos)
  {
    hide Space, Body;
    SpaceTwice(text, pos);
  }

  lemma SkipFieldsFromSpace(text: string, pos: nat, depth: nat)
    requires pos <= |text|
    ensures SkipFields(text, Space(text, pos), depth) == SkipFields(text, pos, depth)
  {
    hide Space, StringAt, Skip;
    StringFromSpace(text, pos);
  }

  lemma SpaceBeforeItems(text: string, pos: nat, items: Items, close: string)
    requires items.Item? && ValidItems(items) && Has(text, pos, PrintItems(items) + (close + "]"))
    ensures pos <= |text| && !At(text, Space(text, pos), ']')
  {
    hide Has, Space, Print;
    HasConcat(text, pos, PrintItems(items), close + "]");
    var tail := if items.rest.NoItems? then "" else items.comma + ("," + PrintItems(items.rest));
    HasConcat(text, pos, Print(items.value), tail);
    ValueStarts(text, pos, items.value);
  }

  lemma SpaceBeforeFields(text: string, pos: nat, fields: Fields, close: string)
    requires fields.Field? && ValidFields(fields) && Has(text, pos, PrintFields(fields) + (close + "}"))
    ensures pos <= |text| && !At(text, Space(text, pos), '}')
  {
    hide Has, Space, Quoted, Print;
    HasConcat(text, pos, PrintFields(fields), close + "}");
    var rest := PrintFields(fields)[|fields.keyWs|..];
    KeyExact(text, pos, fields);
  }

  /** The key of the first field, with the white space before it. */
  lemma KeyExact(text: string, pos: nat, fields: Fields)
    requires fields.Field? && ValidFields(fields) && Has(text, pos, PrintFields(fields))
    ensures pos <= |text| && Space(text, pos) == pos + |fields.keyWs| && At(text, pos + |fields.keyWs|, '"')
    ensures var keyEnd := pos + |fields.keyWs| + |Quoted(fields.key)|;
      && keyEnd <= |text|
      && StringAt(text, pos) == (if Meanings(fields.key).Some? then Some(Read(Meanings(fields.key).value, keyEnd)) else None)
      && Has(text, keyEnd, fields.colon + (":" + (Print(fields.field)
           + (if fields.rest.NoFields? then "" else fields.comma + ("," + PrintFields(fields.rest))))))
  {
    hide Has, Space, Print, Body, Quoted;
    var after := fields.colon + (":" + (Print(fields.field)
      + (if fields.rest.NoFields? then "" else fields.comma + ("," + PrintFields(fields.rest)))));
    HasConcat(text, pos, fields.keyWs, Quoted(fields.key) + after);
    HasConcat(text, pos + |fields.keyWs|, Quoted(fields.key), after);
    StringExact(text, pos + |fields.keyWs|, fields.key);
    HasMeans(text, pos + |fields.keyWs| + |Quoted(fields.key)|, after);
    assert Has(text, pos, fields.keyWs);
    SpaceExact(text, pos, fields.keyWs);
  }

  /** What follows one member of a list or record: the closing character, or a comma and the rest. */
  lemma AfterMember(text: string, pos: nat, last: bool, comma: string, rest: string, close: string, c: char)
    requires Blank(comma) && Blank(close) && (c == ']' || c == '}')
    requires Has(text, pos, (if last then "" else comma + ("," + rest)) + (close + [c]))
    ensures pos <= |text| && Delimited(text, pos)
    ensures last ==> Space(text, pos) == pos + |close| && At(text, pos + |close|, c)
    ensures !last ==> Space(text, pos) == pos + |comma| && At(text, pos + |comma|, ',')
    ensures !last ==> Has(text, pos + |comma| + 1, rest + (close + [c]))
  {
    hide Has, Space, Delimited, Blank;
    if last {
      assert "" + (close + [c]) == close + [c];
      CloseExact(text, pos, close, c);
    } else {
      assert (comma + ("," + rest)) + (close + [c]) == (comma + [',']) + (rest + (close + [c]));
      HasConcat(text, pos, comma + [','], rest + (close + [c]));
      CloseExact(text, pos, comma, ',');
    }
  }

  lemma {:induction false} ItemsExact(text: string, pos: nat, depth: nat, items: Items, close: string)
    requires items.Item? && ValidItems(items) && Blank(close) && Has(text, pos, PrintItems(items) + (close + "]"))
    ensures pos <= |text|
    ensures SkipItems(text, pos, depth) == if DecodableItems(items) && depth + DepthItems(items) <= MAX_DEPTH
                                           then Some(pos + |PrintItems(items)| + |close| + 1) else None
    decreases items, 0
  {
    hide Has, Space, Skip, SkipItems, Print, Delimited;
    var value, rest := Print(items.value), if items.rest.NoItems? then "" else items.comma + ("," + PrintItems(items.rest));
    assert PrintItems(items) + (close + "]") == value + (rest + (close + [']']));
    HasConcat(text, pos, value, rest + (close + [']']));
    AfterMember(text, pos + |value|, items.rest.NoItems?, items.comma, PrintItems(items.rest), close, ']');
    SkipExact(text, pos, depth, items.value);
    ItemStep(text, pos, depth, pos + |value|);
    if items.rest.Item? {
      ItemsExact(text, pos + |value| + |items.comma| + 1, depth, items.rest, close);
    }
  }

  lemma ItemStep(text: string, pos: nat, depth: nat, end: nat)
    requires pos <= |text| && (Skip(text, pos, depth) == Some(end) || Skip(text, pos, depth) == None)
    ensures Skip(text, pos, depth) == None ==> SkipItems(text, pos, depth) == None
    ensures Skip(text, pos, depth).Some? ==>
      && end <= |text|
      && (var p := Space(text, end);
          && (At(text, p, ',') ==> SkipItems(text, pos, depth) == SkipItems(text, p + 1, depth))
          && (At(text, p, ']') ==> SkipItems(text, pos, depth) == Some(p + 1)))
  {
    hide Space, Skip;
  }

  lemma {:induction false} FieldsExact(text: string, pos: nat, depth: nat, fields: Fields, close: string)
    requires fields.Field? && ValidFields(fields) && Blank(close) && Has(text, pos, PrintFields(fields) + (close + "}"))
    ensures pos <= |text|
    ensures SkipFields(text, pos, depth) == if DecodableFields(fields) && depth + DepthFields(fields) <= MAX_DEPTH
                                            then Some(pos + |PrintFields(fields)| + |close| + 1) else None
    decreases fields, 0
  {
    hide Has, Space, Skip, SkipFields, Print, Delimited, StringAt, PrintFields, FieldTail;
    var value := Print(fields.field);
    HasConcat(text, pos, PrintFields(fields), close + "}");
    var at := FieldPosition(text, pos, fields);
    if Meanings(fields.key).None? {
      FieldRefused(text, pos, depth);
    } else {
      HasConcat(text, at, value, FieldTail(fields));
      HasConcat(text, at + |value|, FieldTail(fields), close + "}");
      FieldEnd(text, at + |value|, fields, close);
      SkipExact(text, at, depth, fields.field);
      FieldStep(text, pos, depth, at, at + |value|);
      if fields.rest.Field? {
        FieldsExact(text, at + |value| + |fields.comma| + 1, depth, fields.rest, close);
      }
    }
  }

  lemma FieldRefused(text: string, pos: nat, depth: nat)
    requires pos <= |text| && StringAt(text, pos).None?
    ensures SkipFields(text, pos, depth) == None
  {
  }

  /** What stands behind the value of the first field. */
  function FieldTail(fields: Fields): string
    requires fields.Field?
  {
    if fields.rest.NoFields? then "" else fields.comma + ("," + PrintFields(fields.rest))
  }

  /** Where the value of the first field is. */
  lemma FieldPosition(text: string, pos: nat, fields: Fields) returns (at: nat)
    requires fields.Field? && ValidFields(fields) && Has(text, pos, PrintFields(fields))
    ensures pos < at <= |text| && (StringAt(text, pos).Some? <==> Meanings(fields.key).Some?)
    ensures Meanings(fields.key).Some? ==>
      && StringAt(text, pos).value.content == Meanings(fields.key).value
      && Space(text, StringAt(text, pos).value.next) + 1 == at
    ensures At(text, at - 1, ':') && Has(text, at, Print(fields.field) + FieldTail(fields))
    ensures pos + |PrintFields(fields)| == at + |Print(fields.field)| + |FieldTail(fields)|
  {
    hide Has, Space, Print, Delimited, StringAt, Quoted;
    var after := Print(fields.field) + FieldTail(fields);
    KeyExact(text, pos, fields);
    var keyEnd := pos + |fields.keyWs| + |Quoted(fields.key)|;
    assert fields.colon + (":" + after) == (fields.colon + [':']) + after;
    HasConcat(text, keyEnd, fields.colon + [':'], after);
    CloseExact(text, keyEnd, fields.colon, ':');
    at := keyEnd + |fields.colon| + 1;
  }

  lemma FieldEnd(text: string, end: nat, fields: Fields, close: string)
    requires fields.Field? && ValidFields(fields) && Blank(close) && Has(text, end, FieldTail(fields) + (close + "}"))
    ensures end <= |text| && Delimited(text, end)
    ensures fields.rest.NoFields? ==>
      FieldTail(fields) == "" && Space(text, end) == end + |close| && At(text, end + |close|, '}')
    ensures fields.rest.Field? ==>
      && Space(text, end) == end + |fields.comma| && At(text, end + |fields.comma|, ',')
      && Has(text, end + |fields.comma| + 1, PrintFields(fields.rest) + (close + "}"))
      && |FieldTail(fields)| == |fields.comma| + 1 + |PrintFields(fields.rest)|
  {
    hide Has, Space, Delimited, PrintFields;
    assert close + "}" == close + ['}'];
    AfterMember(text, end, fields.rest.NoFields?, fields.comma, PrintFields(fields.rest), close, '}');
  }

  lemma FieldStep(text: string, pos: nat, depth: nat, at: nat, end: nat)
    requires pos < at <= |text| && StringAt(text, pos).Some? && Space(text, StringAt(text, pos).value.next) + 1 == at
    requires At(text, at - 1, ':') && (Skip(text, at, depth) == Some(end) || Skip(text, at, depth) == None)
    ensures Skip(text, at, depth) == None ==> SkipFields(text, pos, depth) == None
    ensures Skip(text, at, depth).Some? ==>
      && end <= |text|
      && (var p := Space(text, end);
          && (At(text, p, ',') ==> SkipFields(text, pos, depth) == SkipFields(text, p + 1, depth))
          && (At(text, p, '}') ==> SkipFields(text, pos, depth) == Some(p + 1)))
  {
    hide Space, Skip, StringAt;
  }

  // ----- And it consumes nothing else -----

  lemma HasSlice(text: string, pos: nat, end: nat)
    requires pos <= end <= |text|
    ensures Has(text, pos, text[pos..end]) && |text[pos..end]| == end - pos
  {
  }

  lemma BlankSlice(text: string, pos: nat, end: nat)
    requires pos <= end <= |text| && forall i :: pos <= i < end ==> IsSpace(text[i])
    ensures Blank(text[pos..end])
  {
  }

  /** Every accepted character, escape or pair of escapes is that of the grammar, with that meaning. */
  lemma ElementSound(text: string, pos: nat) returns (first: seq<Piece>)
    requires pos < |text| && text[pos] != '"' && Element(text, pos).Some?
    ensures ValidPieces(first) && Has(text, pos, PrintPieces(first))
    ensures Element(text, pos).value.next == pos + |PrintPieces(first)| > pos
    ensures (|first| == 1 && !IsHigh(first[0]) && Meaning(first[0]) == Some(Element(text, pos).value.content))
         || (|first| == 2 && IsHigh(first[0]) && IsLow(first[1])
             && PairMeaning(first[0], first[1]) == Element(text, pos).value.content)
  {
    hide Has, HexCode, Utf8, HexDigits, UnicodeAt, Paired;
    if text[pos] != '\\' {
      first := [Raw(text[pos])];
      HasOne(text, pos, text[pos]);
      OnePrints(first[0]);
    } else if text[pos + 1] != 'u' {
      first := [Short(text[pos + 1])];
      HasTwo(text, pos, '\\', text[pos + 1]);
      OnePrints(first[0]);
    } else {
      HasTwo(text, pos, '\\', 'u');
      first := UnicodeSound(text, pos + 2);
    }
  }

  lemma OnePrints(p: Piece)
    ensures PrintPieces([p]) == PrintPiece(p)
  {
    assert [p][1..] == [] && PrintPieces([]) == "";
  }

  lemma TwoPrint(p: Piece, q: Piece)
    ensures PrintPieces([p, q]) == PrintPiece(p) + PrintPiece(q)
  {
    assert [p, q][1..] == [q];
    OnePrints(q);
  }

  lemma UnicodeSound(text: string, pos: nat) returns (first: seq<Piece>)
    requires 2 <= pos <= |text| && UnicodeAt(text, pos).Some? && Has(text, pos - 2, ['\\', 'u'])
    ensures ValidPieces(first) && Has(text, pos - 2, PrintPieces(first))
    ensures UnicodeAt(text, pos).value.next == pos - 2 + |PrintPieces(first)|
    ensures (|first| == 1 && !IsHigh(first[0]) && Meaning(first[0]) == Some(UnicodeAt(text, pos).value.content))
         || (|first| == 2 && IsHigh(first[0]) && IsLow(first[1])
             && PairMeaning(first[0], first[1]) == UnicodeAt(text, pos).value.content)
  {
    hide HexCode, HexDigits, Utf8, Paired, Has, PrintPieces;
    var high := text[pos..pos + 4];
    HasSlice(text, pos, pos + 4);
    HasConcat(text, pos - 2, ['\\', 'u'], high);
    PieceLength(Unit(high));
    if HighSurrogate(HexCode(high)) {
      var low := text[pos + 6..pos + 10];
      HasSlice(text, pos + 6, pos + 10);
      HasTwo(text, pos + 4, '\\', 'u');
      HasConcat(text, pos + 4, ['\\', 'u'], low);
      HasConcat(text, pos - 2, PrintPiece(Unit(high)), PrintPiece(Unit(low)));
      PieceLength(Unit(low));
      first := [Unit(high), Unit(low)];
      TwoPrint(Unit(high), Unit(low));
    } else {
      first := [Unit(high)];
      OnePrints(Unit(high));
    }
  }

  /** Putting the pieces just read before the others. */
  lemma PiecesJoin(first: seq<Piece>, rest: seq<Piece>)
    requires ValidPieces(first) && ValidPieces(rest)
    requires (|first| == 1 && !IsHigh(first[0])) || (|first| == 2 && IsHigh(first[0]) && IsLow(first[1]))
    ensures ValidPieces(first + rest)
    ensures PrintPieces(first + rest) == PrintPieces(first) + PrintPieces(rest)
    ensures |first| == 1 ==> Meanings(first + rest) == Prefixed(Meaning(first[0]), Meanings(rest))
    ensures |first| == 2 ==> Meanings(first + rest) == Prefixed(Some(PairMeaning(first[0], first[1])), Meanings(rest))
  {
    hide ValidPiece, IsHigh, IsLow, Meaning, PairMeaning, PrintPiece, PrintPieces, Meanings;
    var all := first + rest;
    PrintFirst(all);
    if |first| == 1 {
      assert all[1..] == rest && first == [first[0]];
      OnePrints(first[0]);
      MeansFirst(all);
    } else {
      assert all[1..][1..] == rest && all[1..][0] == first[1] && all[2..] == rest;
      PrintFirst(all[1..]);
      assert first == [first[0], first[1]];
      TwoPrint(first[0], first[1]);
      MeansFirst(all);
    }
  }

  lemma MeansFirst(pieces: seq<Piece>)
    requires ValidPieces(pieces) && pieces != []
    ensures ValidPiece(pieces[0]) && ValidPieces(pieces[1..])
    ensures !IsHigh(pieces[0]) ==> Meanings(pieces) == Prefixed(Meaning(pieces[0]), Meanings(pieces[1..]))
    ensures IsHigh(pieces[0]) && |pieces| > 1 && IsLow(pieces[1]) ==>
      ValidPieces(pieces[2..]) && Meanings(pieces) == Prefixed(Some(PairMeaning(pieces[0], pieces[1])), Meanings(pieces[2..]))
  {
    hide ValidPiece, IsHigh, IsLow, Meaning, PairMeaning;
    assert ValidPiece(pieces[0]);
  }

  lemma NothingSaid()
    ensures PrintPieces([]) == "" && Meanings([]) == Some("")
  {
  }

  lemma {:induction false} BodySound(text: string, pos: nat) returns (pieces: seq<Piece>)
    requires pos <= |text| && Body(text, pos).Some?
    ensures ValidPieces(pieces) && Has(text, pos, PrintPieces(pieces) + "\"")
    ensures Meanings(pieces) == Some(Body(text, pos).value.content)
    ensures Body(text, pos).value.next == pos + |PrintPieces(pieces)| + 1
    decreases |text| - pos
  {
    hide Has, Element, ValidPiece, Meaning, PrintPiece, PrintPieces, IsHigh, IsLow, PairMeaning, Meanings;
    if text[pos] == '"' {
      pieces := [];
      HasOne(text, pos, '"');
      NothingSaid();
      assert PrintPieces(pieces) + "\"" == ['"'];
    } else {
      var first := ElementSound(text, pos);
      var rest := BodySound(text, pos + |PrintPieces(first)|);
      pieces := first + rest;
      PiecesJoin(first, rest);
      assert PrintPieces(pieces) + "\"" == PrintPieces(first) + (PrintPieces(rest) + "\"");
      HasConcat(text, pos, PrintPieces(first), PrintPieces(rest) + "\"");
    }
  }

  lemma QuotedSound(text: string, pos: nat) returns (pieces: seq<Piece>)
    requires At(text, pos, '"') && Body(text, pos + 1).Some?
    ensures ValidPieces(pieces) && Has(text, pos, Quoted(pieces))
    ensures Meanings(pieces) == Some(Body(text, pos + 1).value.content)
    ensures Body(text, pos + 1).value.next == pos + |Quoted(pieces)|
  {
    hide Has, Body, PrintPieces, Meanings, Quoted, ValidPieces;
    pieces := BodySound(text, pos + 1);
    QuotedIs(pieces);
    HasOne(text, pos, '"');
    HasConcat(text, pos, ['"'], PrintPieces(pieces) + "\"");
  }

  lemma DigitSlice(text: string, pos: nat, end: nat)
    requires pos < end <= |text| && forall i :: pos <= i < end ==> IsDigit(text[i])
    ensures AllDigits(text[pos..end])
  {
  }

  lemma FractionSound(text: string, pos: nat) returns (fraction: string)
    requires pos <= |text| && Fraction(text, pos).Some?
    ensures fraction == "" || (fraction[0] == '.' && AllDigits(fraction[1..]))
    ensures Has(text, pos, fraction) && Fraction(text, pos).value == pos + |fraction|
  {
    hide Digits;
    var end := Fraction(text, pos).value;
    fraction := text[pos..end];
    if end > pos {
      DigitsGrow(text, pos + 1);
      DigitSlice(text, pos + 1, end);
      assert fraction[1..] == text[pos + 1..end];
    }
  }

  lemma DigitsGrow(text: string, pos: nat)
    requires DigitAt(text, pos)
    ensures Digits(text, pos) > pos
  {
  }

  lemma ExponentSound(text: string, pos: nat) returns (exponent: string)
    requires pos <= |text| && Exponent(text, pos).Some?
    ensures ValidExponent(exponent) && Has(text, pos, exponent) && Exponent(text, pos).value == pos + |exponent|
  {
    hide Digits, AllDigits;
    var end := Exponent(text, pos).value;
    exponent := text[pos..end];
    if At(text, pos, 'e') || At(text, pos, 'E') {
      var p := if At(text, pos + 1, '+') || At(text, pos + 1, '-') then pos + 2 else pos + 1;
      DigitsGrow(text, p);
      DigitSlice(text, p, end);
      assert exponent[p - pos..] == text[p..end];
    }
  }

  lemma NumberSound(text: string, pos: nat) returns (n: NumberText)
    requires pos <= |text| && SkipNumber(text, pos).Some?
    ensures ValidNumber(n) && Has(text, pos, PrintNumber(n)) && SkipNumber(text, pos).value == pos + |PrintNumber(n)|
  {
    hide Has, Digits, AllDigits, Fraction, Exponent, ValidExponent;
    var minus := At(text, pos, '-');
    var p := if minus then pos + 1 else pos;
    if text[p] != '0' { DigitsGrow(text, p); }
    var q := if text[p] == '0' then p + 1 else Digits(text, p);
    var whole := text[p..q];
    DigitSlice(text, p, q);
    HasSlice(text, p, q);
    var fraction := FractionSound(text, q);
    var exponent := ExponentSound(text, q + |fraction|);
    n := NumberText(minus, whole, fraction, exponent);
    var sign := if minus then "-" else "";
    if minus { HasOne(text, pos, '-'); } else { HasSlice(text, pos, pos); }
    HasConcat(text, pos, sign, whole);
    HasConcat(text, pos, sign + whole, fraction);
    HasConcat(text, pos, sign + whole + fraction, exponent);
  }

  lemma WordSound(text: string, pos: nat, word: string)
    requires Literal(text, pos, word).Some?
    ensures Has(text, pos, word) && Literal(text, pos, word).value == pos + |word|
  {
  }

  /** Whatever skipValue accepts is one value of the grammar, nested at most 32 deep: it consumes
      exactly the printed text of that value. */
  lemma {:induction false} SkipSound(text: string, pos: nat, depth: nat) returns (v: Json)
    requires pos <= |text| && Skip(text, pos, depth).Some?
    ensures Valid(v) && Decodable(v) && Has(text, pos, Print(v)) && depth + Depth(v) <= MAX_DEPTH
    ensures Skip(text, pos, depth).value == pos + |Print(v)|
    decreases if depth <= MAX_DEPTH then MAX_DEPTH + 1 - depth else 0, 0, 0
  {
    hide Has, Space, Body, SkipNumber, Literal, SkipItems, SkipFields, Quoted, PrintNumber, PrintItems, PrintFields;
    hide Meanings;
    var p := Space(text, pos);
    var ws := text[pos..p];
    SpaceSlice(text, pos);
    if text[p] == '"' {
      var pieces := QuotedSound(text, p);
      v := Text(ws, pieces);
      HasConcat(text, pos, ws, Quoted(pieces));
    } else if text[p] == '{' {
      v := RecordSound(text, pos, p, depth);
    } else if text[p] == '[' {
      v := ListSound(text, pos, p, depth);
    } else if text[p] == 't' {
      v := WordValue(text, pos, p, "true");
    } else if text[p] == 'f' {
      v := WordValue(text, pos, p, "false");
    } else if text[p] == 'n' {
      v := WordValue(text, pos, p, "null");
    } else {
      var n := NumberSound(text, p);
      v := Number(ws, n);
      HasConcat(text, pos, ws, PrintNumber(n));
    }
  }

  lemma SpaceSlice(text: string, pos: nat)
    requires pos <= |text|
    ensures var p := Space(text, pos);
      Has(text, pos, text[pos..p]) && Blank(text[pos..p]) && |text[pos..p]| == p - pos
  {
    hide Space;
    HasSlice(text, pos, Space(text, pos));
    BlankSlice(text, pos, Space(text, pos));
  }

  lemma WordValue(text: string, pos: nat, p: nat, word: string) returns (v: Json)
    requires pos <= |text| && p == Space(text, pos) && Literal(text, p, word).Some?
    requires word == "true" || word == "false" || word == "null"
    ensures v == Word(text[pos..p], word) && Valid(v) && Decodable(v) && Has(text, pos, Print(v)) && Depth(v) == 0
    ensures Literal(text, p, word).value == pos + |Print(v)|
  {
    hide Has, Space, Literal;
    SpaceSlice(text, pos);
    WordSound(text, p, word);
    v := Word(text[pos..p], word);
    HasConcat(text, pos, text[pos..p], word);
  }

  lemma ListSound(text: string, pos: nat, p: nat, depth: nat) returns (v: Json)
    requires pos <= |text| && p == Space(text, pos) && At(text, p, '[') && depth <= MAX_DEPTH
    requires ListFrom(text, p + 1, depth).Some?
    ensures v.List? && Valid(v) && Decodable(v) && Has(text, pos, Print(v)) && depth + Depth(v) <= MAX_DEPTH
    ensures ListFrom(text, p + 1, depth).value == pos + |Print(v)|
    decreases if depth <= MAX_DEPTH then MAX_DEPTH + 1 - depth else 0, 0, 0, 0
  {
    hide Has, Space, SkipItems, PrintItems, DepthItems, ValidItems, Valid, Print, Depth, DecodableItems;
    var q := Space(text, p + 1);
    SpaceSlice(text, p + 1);
    var items, close := NoItems, text[p + 1..q];
    if At(text, q, ']') {
      NothingItems();
      HasOne(text, q, ']');
      HasConcat(text, p + 1, close, "]");
      assert PrintItems(items) + (close + "]") == close + "]";
    } else {
      SkipItemsFromSpace(text, p + 1, depth + 1);
      items, close := ItemsSound(text, p + 1, depth + 1);
    }
    v := ListValue(text, pos, p, items, close);
  }

  lemma ListValue(text: string, pos: nat, p: nat, items: Items, close: string) returns (v: Json)
    requires pos <= |text| && p == Space(text, pos) && At(text, p, '[') && ValidItems(items) && Blank(close)
    requires Has(text, p + 1, PrintItems(items) + (close + "]"))
    ensures v == List(text[pos..p], items, close) && Valid(v) && (Decodable(v) <==> DecodableItems(items)) && Has(text, pos, Print(v))
    ensures pos + |Print(v)| == p + 1 + |PrintItems(items)| + |close| + 1
    ensures Depth(v) == if items.NoItems? then 0 else 1 + DepthItems(items)
  {
    hide Has, Space, PrintItems, DepthItems, ValidItems, DecodableItems;
    v := List(text[pos..p], items, close);
    SpaceSlice(text, pos);
    HasOne(text, p, '[');
    HasConcat(text, p, "[", PrintItems(items) + (close + "]"));
    HasConcat(text, pos, text[pos..p], "[" + (PrintItems(items) + (close + "]")));
  }

  lemma NothingItems()
    ensures PrintItems(NoItems) == "" && ValidItems(NoItems) && DecodableItems(NoItems)
    ensures PrintFields(NoFields) == "" && ValidFields(NoFields) && DecodableFields(NoFields)
  {
  }

  lemma {:induction false} ItemsSound(text: string, pos: nat, depth: nat) returns (items: Items, close: string)
    requires pos <= |text| && SkipItems(text, pos, depth).Some?
    ensures items.Item? && ValidItems(items) && DecodableItems(items) && Blank(close) && Has(text, pos, PrintItems(items) + (close + "]"))
    ensures depth + DepthItems(items) <= MAX_DEPTH
    ensures SkipItems(text, pos, depth).value == pos + |PrintItems(items)| + |close| + 1
    decreases if depth <= MAX_DEPTH then MAX_DEPTH + 1 - depth else 0, 1, |text| - pos, 0
  {
    hide Has, Space, Skip, Print, Valid, Depth, Decodable;
    var value := SkipSound(text, pos, depth);
    var q := Skip(text, pos, depth).value;
    var p := Space(text, q);
    SpaceSlice(text, q);
    if At(text, p, ',') {
      var rest, end := ItemsSound(text, p + 1, depth);
      items, close := Item(value, text[q..p], rest), end;
      ItemMore(text, pos, value, q, rest, close);
    } else {
      items, close := Item(value, "", NoItems), text[q..p];
      ItemLast(text, pos, value, q);
    }
  }

  /** An item of a list and the items behind its comma. */
  lemma ItemMore(text: string, pos: nat, value: Json, q: nat, rest: Items, close: string)
    requires Has(text, pos, Print(value)) && q == pos + |Print(value)| <= |text| && rest.Item?
    requires At(text, Space(text, q), ',') && Has(text, Space(text, q) + 1, PrintItems(rest) + (close + "]"))
    ensures var items := Item(value, text[q..Space(text, q)], rest);
      && Blank(items.comma) && Has(text, pos, PrintItems(items) + (close + "]"))
      && pos + |PrintItems(items)| == Space(text, q) + 1 + |PrintItems(rest)|
  {
    hide Has, Space, Print;
    var p := Space(text, q);
    var comma, tail := text[q..p], PrintItems(rest) + (close + "]");
    SpaceSlice(text, q);
    HasOne(text, p, ',');
    HasConcat(text, p, ",", tail);
    HasConcat(text, q, comma, "," + tail);
    HasConcat(text, pos, Print(value), comma + ("," + tail));
    assert PrintItems(Item(value, comma, rest)) == Print(value) + (comma + ("," + PrintItems(rest)));
    Assoc(",", PrintItems(rest), close + "]");
    Assoc(comma, "," + PrintItems(rest), close + "]");
    Assoc(Print(value), comma + ("," + PrintItems(rest)), close + "]");
  }

  lemma ItemLast(text: string, pos: nat, value: Json, q: nat)
    requires Has(text, pos, Print(value)) && q == pos + |Print(value)| <= |text| && At(text, Space(text, q), ']')
    ensures var items, close := Item(value, "", NoItems), text[q..Space(text, q)];
      && Blank(close) && Has(text, pos, PrintItems(items) + (close + "]"))
      && PrintItems(items) == Print(value) && q + |close| == Space(text, q)
  {
    hide Has, Space, Print;
    var p := Space(text, q);
    SpaceSlice(text, q);
    HasOne(text, p, ']');
    HasConcat(text, q, text[q..p], "]");
    HasConcat(text, pos, Print(value), text[q..p] + "]");
    assert PrintItems(Item(value, "", NoItems)) == Print(value);
  }

  lemma RecordSound(text: string, pos: nat, p: nat, depth: nat) returns (v: Json)
    requires pos <= |text| && p == Space(text, pos) && At(text, p, '{') && depth <= MAX_DEPTH
    requires RecordFrom(text, p + 1, depth).Some?
    ensures v.Record? && Valid(v) && Decodable(v) && Has(text, pos, Print(v)) && depth + Depth(v) <= MAX_DEPTH
    ensures RecordFrom(text, p + 1, depth).value == pos + |Print(v)|
    decreases if depth <= MAX_DEPTH then MAX_DEPTH + 1 - depth else 0, 0, 0, 0
  {
    hide Has, Space, SkipFields, PrintFields, DepthFields, ValidFields, Valid, Print, Depth, DecodableFields;
    var q := Space(text, p + 1);
    SpaceSlice(text, p + 1);
    var fields, close := NoFields, text[p + 1..q];
    if At(text, q, '}') {
      NothingItems();
      HasOne(text, q, '}');
      HasConcat(text, p + 1, close, "}");
      assert PrintFields(fields) + (close + "}") == close + "}";
    } else {
      SkipFieldsFromSpace(text, p + 1, depth + 1);
      fields, close := FieldsSound(text, p + 1, depth + 1);
    }
    v := RecordValue(text, pos, p, fields, close);
  }

  lemma RecordValue(text: string, pos: nat, p: nat, fields: Fields, close: string) returns (v: Json)
    requires pos <= |text| && p == Space(text, pos) && At(text, p, '{') && ValidFields(fields) && Blank(close)
    requires Has(text, p + 1, PrintFields(fields) + (close + "}"))
    ensures v == Record(text[pos..p], fields, close) && Valid(v) && (Decodable(v) <==> DecodableFields(fields)) && Has(text, pos, Print(v))
    ensures pos + |Print(v)| == p + 1 + |PrintFields(fields)| + |close| + 1
    ensures Depth(v) == if fields.NoFields? then 0 else 1 + DepthFields(fields)
  {
    hide Has, Space, PrintFields, DepthFields, ValidFields, DecodableFields;
    v := Record(text[pos..p], fields, close);
    SpaceSlice(text, pos);
    HasOne(text, p, '{');
    HasConcat(text, p, "{", PrintFields(fields) + (close + "}"));
    HasConcat(text, pos, text[pos..p], "{" + (PrintFields(fields) + (close + "}")));
  }

  /** The key and the colon of a field. */
  lemma KeySound(text: string, pos: nat) returns (keyWs: string, key: seq<Piece>, colon: string)
    requires pos <= |text| && StringAt(text, pos).Some? && At(text, Space(text, StringAt(text, pos).value.next), ':')
    ensures Blank(keyWs) && ValidPieces(key) && Blank(colon)
    ensures Meanings(key) == Some(StringAt(text, pos).value.content)
    ensures Has(text, pos, keyWs + (Quoted(key) + (colon + ":")))
    ensures Space(text, StringAt(text, pos).value.next) + 1 == pos + |keyWs + (Quoted(key) + (colon + ":"))|
  {
    hide Has, Space, Body, Quoted, PrintPieces, Meanings;
    var p := Space(text, pos);
    keyWs := text[pos..p];
    SpaceSlice(text, pos);
    key := QuotedSound(text, p);
    var q := Body(text, p + 1).value.next;
    colon := text[q..Space(text, q)];
    SpaceSlice(text, q);
    HasOne(text, Space(text, q), ':');
    HasConcat(text, q, colon, ":");
    HasConcat(text, p, Quoted(key), colon + ":");
    HasConcat(text, pos, keyWs, Quoted(key) + (colon + ":"));
  }

  lemma FieldForm(keyWs: string, key: seq<Piece>, colon: string, value: Json, comma: string, rest: Fields, after: string)
    ensures PrintFields(Field(keyWs, key, colon, value, comma, rest)) + after
      == (keyWs + (Quoted(key) + (colon + ":")))
         + (Print(value) + (if rest.NoFields? then after else comma + ("," + (PrintFields(rest) + after))))
  {
    hide Print, Quoted, PrintFields;
    var tail := if rest.NoFields? then "" else comma + ("," + PrintFields(rest));
    FieldPrint(keyWs, key, colon, value, comma, rest);
    Regroup(keyWs, Quoted(key), colon, Print(value), tail, after);
    assert rest.NoFields? ==> tail + after == after;
    if rest.Field? {
      Assoc(comma, "," + PrintFields(rest), after);
      Assoc(",", PrintFields(rest), after);
    }
  }

  lemma FieldPrint(keyWs: string, key: seq<Piece>, colon: string, value: Json, comma: string, rest: Fields)
    ensures PrintFields(Field(keyWs, key, colon, value, comma, rest))
      == keyWs + (Quoted(key) + (colon + (":" + (Print(value)
           + (if rest.NoFields? then "" else comma + ("," + PrintFields(rest)))))))
  {
    hide Print, Quoted;
  }

  lemma Assoc(a: string, b: string, c: string)
    ensures (a + b) + c == a + (b + c)
  {
  }

  lemma Regroup(keyWs: string, quoted: string, colon: string, value: string, tail: string, after: string)
    ensures (keyWs + (quoted + (colon + (":" + (value + tail))))) + after
      == (keyWs + (quoted + (colon + ":"))) + (value + (tail + after))
  {
    Assoc(colon, ":", value + tail);
    Assoc(quoted, colon + ":", value + tail);
    Assoc(keyWs, quoted + (colon + ":"), value + tail);
    Assoc(keyWs + (quoted + (colon + ":")), value + tail, after);
    Assoc(value, tail, after);
  }

  lemma {:induction false} FieldsSound(text: string, pos: nat, depth: nat) returns (fields: Fields, close: string)
    requires pos <= |text| && SkipFields(text, pos, depth).Some?
    ensures fields.Field? && ValidFields(fields) && DecodableFields(fields) && Blank(close) && Has(text, pos, PrintFields(fields) + (close + "}"))
    ensures depth + DepthFields(fields) <= MAX_DEPTH
    ensures SkipFields(text, pos, depth).value == pos + |PrintFields(fields)| + |close| + 1
    decreases if depth <= MAX_DEPTH then MAX_DEPTH + 1 - depth else 0, 1, |text| - pos, 0
  {
    hide Has, Space, Skip, Print, PrintFields, Valid, Depth, StringAt, Quoted, ValidPieces, Meanings, Decodable;
    var keyWs, key, colon := KeySound(text, pos);
    var at := pos + |keyWs + (Quoted(key) + (colon + ":"))|;
    var value := SkipSound(text, at, depth);
    var q := Skip(text, at, depth).value;
    var p := Space(text, q);
    if At(text, p, ',') {
      var rest, end := FieldsSound(text, p + 1, depth);
      fields, close := Field(keyWs, key, colon, value, text[q..p], rest), end;
      FieldMore(text, pos, Field(keyWs, key, colon, value, "", NoFields), q, rest, close);
    } else {
      fields, close := Field(keyWs, key, colon, value, "", NoFields), text[q..p];
      FieldLast(text, pos, fields, q);
    }
  }

  /** The white space, key and colon before the value of a field. */
  function FieldHead(f: Fields): string
    requires f.Field?
  {
    f.keyWs + (Quoted(f.key) + (f.colon + ":"))
  }

  lemma HeadForm(f: Fields)
    requires f.Field?
    ensures FieldHead(f) == f.keyWs + (Quoted(f.key) + (f.colon + ":"))
  {
    hide Quoted;
  }

  /** A field of a record and the fields behind its comma. */
  lemma FieldMore(text: string, pos: nat, f: Fields, q: nat, rest: Fields, close: string)
    requires f.Field? && Has(text, pos, FieldHead(f)) && Has(text, pos + |FieldHead(f)|, Print(f.field))
    requires q == pos + |FieldHead(f)| + |Print(f.field)| <= |text| && rest.Field?
    requires At(text, Space(text, q), ',') && Has(text, Space(text, q) + 1, PrintFields(rest) + (close + "}"))
    ensures var fields := Field(f.keyWs, f.key, f.colon, f.field, text[q..Space(text, q)], rest);
      && Blank(fields.comma) && Has(text, pos, PrintFields(fields) + (close + "}"))
      && pos + |PrintFields(fields)| == Space(text, q) + 1 + |PrintFields(rest)|
  {
    hide Has, Space, Print, PrintFields, Quoted, FieldHead;
    var at, p := pos + |FieldHead(f)|, Space(text, q);
    var comma, after := text[q..p], PrintFields(rest) + (close + "}");
    SpaceSlice(text, q);
    HasOne(text, p, ',');
    HasConcat(text, p, ",", after);
    HasConcat(text, q, comma, "," + after);
    HasConcat(text, at, Print(f.field), comma + ("," + after));
    HasConcat(text, pos, FieldHead(f), Print(f.field) + (comma + ("," + after)));
    FieldForm(f.keyWs, f.key, f.colon, f.field, comma, rest, close + "}");
    HeadForm(f);
  }

  lemma FieldLast(text: string, pos: nat, f: Fields, q: nat)
    requires f.Field? && Has(text, pos, FieldHead(f)) && Has(text, pos + |FieldHead(f)|, Print(f.field))
    requires q == pos + |FieldHead(f)| + |Print(f.field)| <= |text| && f.rest.NoFields? && At(text, Space(text, q), '}')
    ensures var close := text[q..Space(text, q)];
      && Blank(close) && Has(text, pos, PrintFields(f) + (close + "}"))
      && pos + |PrintFields(f)| == q && q + |close| == Space(text, q)
  {
    hide Has, Space, Print, PrintFields, Quoted, FieldHead;
    var at, p := pos + |FieldHead(f)|, Space(text, q);
    SpaceSlice(text, q);
    HasOne(text, p, '}');
    HasConcat(text, q, text[q..p], "}");
    HasConcat(text, at, Print(f.field), text[q..p] + "}");
    HasConcat(text, pos, FieldHead(f), Print(f.field) + (text[q..p] + "}"));
    FieldForm(f.keyWs, f.key, f.colon, f.field, f.comma, NoFields, text[q..p] + "}");
    HeadForm(f);
  }
}
