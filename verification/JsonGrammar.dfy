/**
 The JSON subset the benchmark evaluator reads: sections 2, 4, 5 and 7 of RFC 8259 with
 unsigned 64-bit integers as the only numbers, strings kept raw, and distinct keys per object.
 A syntax tree keeps every byte, so the text of a tree is a plain function of it.
 */
module JsonGrammar {
  import opened Arithmetic
  import Sequences
  import opened Words

  type text = seq<byte>

  predicate IsSpace(b: byte) {
    b == 0x20 || b == 0x0A || b == 0x0D || b == 0x09
  }

  predicate IsDigit(b: byte) {
    0x30 <= b <= 0x39
  }

  predicate IsHex(b: byte) {
    IsDigit(b) || 0x61 <= b <= 0x66 || 0x41 <= b <= 0x46
  }

  const QUOTE: byte := 0x22
  const BACKSLASH: byte := 0x5C
  const COLON: byte := 0x3A
  const COMMA: byte := 0x2C

  function Opening(keyed: bool): byte { if keyed then 0x7B else 0x5B }
  function Closing(keyed: bool): byte { if keyed then 0x7D else 0x5D }

  const TRUE: text := [0x74, 0x72, 0x75, 0x65]
  const FALSE: text := [0x66, 0x61, 0x6C, 0x73, 0x65]
  const NULL: text := [0x6E, 0x75, 0x6C, 0x6C]

  /** The bytes of a text of ASCII characters. */
  function Ascii(s: string): text
    requires forall i :: 0 <= i < |s| ==> s[i] as int < 128
  {
    seq(|s|, i requires 0 <= i < |s| => s[i] as int)
  }

  /** Arrays and objects are containers; the children of an array carry empty labels. */
  datatype Value =
    | Null
    | Bool(value: bool)
    | Number(digits: text)
    | String(raw: text)
    | Container(keyed: bool, pad: text, kids: seq<Kid>)

  datatype Label = Label(before: text, key: text, beforeColon: text, afterColon: text)

  datatype Kid = Kid(lbl: Label, value: Value, after: text)

  // ---- The text of a tree, followed by `rest` ----

  function LabelOnto(keyed: bool, l: Label, rest: text): text {
    if keyed then l.before + ([QUOTE] + (l.key + ([QUOTE] + (l.beforeColon + ([COLON] + (l.afterColon + rest))))))
    else l.before + rest
  }

  function Onto(v: Value, rest: text): text
    decreases v, 0
  {
    match v
    case Null => NULL + rest
    case Bool(b) => (if b then TRUE else FALSE) + rest
    case Number(digits) => digits + rest
    case String(raw) => [QUOTE] + (raw + ([QUOTE] + rest))
    case Container(keyed, pad, kids) => [Opening(keyed)] + (pad + KidsOnto(keyed, kids, [Closing(keyed)] + rest))
  }

  function KidsOnto(keyed: bool, kids: seq<Kid>, rest: text): text
    decreases kids, 0
  {
    if kids == [] then rest
    else
      var tail := if |kids| == 1 then rest else [COMMA] + KidsOnto(keyed, kids[1..], rest);
      LabelOnto(keyed, kids[0].lbl, Onto(kids[0].value, kids[0].after + tail))
  }

  /** The text of a tree. */
  function Render(v: Value): text {
    Onto(v, [])
  }

  lemma {:induction false} OntoConcat(v: Value, a: text, b: text)
    ensures Onto(v, a + b) == Onto(v, a) + b
    decreases v, 0
  {
    hide KidsOnto;
    match v {
      case Null => Sequences.Regroup(NULL, a, b);
      case Bool(value) => Sequences.Regroup(if value then TRUE else FALSE, a, b);
      case Number(digits) => Sequences.Regroup(digits, a, b);
      case String(raw) =>
        Sequences.Regroup([QUOTE], a, b);
        Sequences.Regroup(raw, [QUOTE] + a, b);
        Sequences.Regroup([QUOTE], raw + ([QUOTE] + a), b);
      case Container(keyed, pad, kids) =>
        var close := [Closing(keyed)] + a;
        KidsOntoConcat(keyed, kids, close, b);
        Sequences.Regroup([Closing(keyed)], a, b);
        Sequences.Regroup(pad, KidsOnto(keyed, kids, close), b);
        Sequences.Regroup([Opening(keyed)], pad + KidsOnto(keyed, kids, close), b);
    }
  }

  lemma {:induction false} KidsOntoConcat(keyed: bool, kids: seq<Kid>, a: text, b: text)
    ensures KidsOnto(keyed, kids, a + b) == KidsOnto(keyed, kids, a) + b
    decreases kids, 0
  {
    if kids != [] {
      var k, rest := kids[0], KidsOnto(keyed, kids[1..], a);
      var tail := if |kids| == 1 then a else [COMMA] + rest;
      KidsOntoConcat(keyed, kids[1..], a, b);
      hide KidsOnto, Onto;
      assert [COMMA] + (rest + b) == ([COMMA] + rest) + b;
      assert k.after + (tail + b) == (k.after + tail) + b;
      OntoConcat(k.value, k.after + tail, b);
      LabelOntoConcat(keyed, k.lbl, Onto(k.value, k.after + tail), b);
      UnfoldKids(keyed, kids, a);
      UnfoldKids(keyed, kids, a + b);
    }
  }

  lemma LabelOntoConcat(keyed: bool, l: Label, a: text, b: text)
    ensures LabelOnto(keyed, l, a + b) == LabelOnto(keyed, l, a) + b
  {
    if keyed {
      var t0 := l.afterColon + a;
      var t1 := [COLON] + t0;
      var t2 := l.beforeColon + t1;
      var t3 := [QUOTE] + t2;
      var t4 := l.key + t3;
      var t5 := [QUOTE] + t4;
      assert l.afterColon + (a + b) == t0 + b;
      assert [COLON] + (t0 + b) == t1 + b;
      assert l.beforeColon + (t1 + b) == t2 + b;
      assert [QUOTE] + (t2 + b) == t3 + b;
      assert l.key + (t3 + b) == t4 + b;
      assert [QUOTE] + (t4 + b) == t5 + b;
      assert l.before + (t5 + b) == (l.before + t5) + b;
    }
  }

  // ---- The same text, put together from the texts of the children ----

  /** One child: its key and the colon if it has one, its value, and the white space around them. */
  function Piece(keyed: bool, k: Kid): text {
    k.lbl.before
    + (if keyed then Ascii("\"") + k.lbl.key + Ascii("\"") + k.lbl.beforeColon + Ascii(":") + k.lbl.afterColon else [])
    + Render(k.value) + k.after
  }

  /** Texts with commas between them. */
  function Joined(texts: seq<text>): text {
    if texts == [] then [] else if |texts| == 1 then texts[0] else texts[0] + Ascii(",") + Joined(texts[1..])
  }

  function Pieces(keyed: bool, kids: seq<Kid>): (r: seq<text>)
    ensures |r| == |kids|
  {
    if kids == [] then [] else [Piece(keyed, kids[0])] + Pieces(keyed, kids[1..])
  }

  lemma PieceText(keyed: bool, k: Kid, rest: text)
    ensures LabelOnto(keyed, k.lbl, Onto(k.value, k.after + rest)) == Piece(keyed, k) + rest
  {
    hide Onto;
    OntoConcat(k.value, [], k.after + rest);
    assert [] + (k.after + rest) == k.after + rest;
    var value := Render(k.value) + (k.after + rest);
    assert LabelOnto(keyed, k.lbl, value) == Piece(keyed, k) + rest;
  }

  lemma {:induction false} KidsText(keyed: bool, kids: seq<Kid>, rest: text)
    ensures KidsOnto(keyed, kids, rest) == Joined(Pieces(keyed, kids)) + rest
    decreases |kids|
  {
    hide Onto, Piece;
    if kids != [] {
      var tail := if |kids| == 1 then rest else [COMMA] + KidsOnto(keyed, kids[1..], rest);
      PieceText(keyed, kids[0], tail);
      KidsText(keyed, kids[1..], rest);
      UnfoldKids(keyed, kids, rest);
      assert Pieces(keyed, kids)[1..] == Pieces(keyed, kids[1..]);
      assert Ascii(",") == [COMMA];
      hide KidsOnto, LabelOnto;
    }
  }

  /** An array or object is its children, joined by commas, between brackets or braces. */
  lemma ContainerText(v: Value)
    requires v.Container?
    ensures Render(v)
            == Ascii(if v.keyed then "{" else "[") + v.pad + Joined(Pieces(v.keyed, v.kids))
               + Ascii(if v.keyed then "}" else "]")
  {
    hide KidsOnto, Joined, Pieces;
    KidsText(v.keyed, v.kids, [Closing(v.keyed)] + []);
    assert [Closing(v.keyed)] + [] == Ascii(if v.keyed then "}" else "]");
  }

  // ---- Which trees are in the subset ----

  predicate AllSpace(w: text) {
    forall i :: 0 <= i < |w| ==> IsSpace(w[i])
  }

  /** The length of the string character at the front of a text, or 0 when there is none. */
  function UnitLength(s: text): (n: nat)
    requires s != []
    ensures n <= |s|
  {
    if s[0] == QUOTE || s[0] < 0x20 then 0
    else if s[0] != BACKSLASH then 1
    else if |s| < 2 then 0
    else if s[1] == 0x75 then
      if |s| >= 6 && IsHex(s[2]) && IsHex(s[3]) && IsHex(s[4]) && IsHex(s[5]) then 6 else 0
    else if s[1] in [QUOTE, BACKSLASH, 0x2F, 0x62, 0x66, 0x6E, 0x72, 0x74] then 2 else 0
  }

  /** The characters of the subset: white space, hexadecimal digits, escapes, and what a string may hold as it is. */
  lemma Characters(b: byte)
    ensures IsSpace(b) <==> b as char in " \t\n\r"
    ensures IsDigit(b) <==> b as char in "0123456789"
    ensures IsHex(b) <==> b as char in "0123456789abcdefABCDEF"
    ensures UnitLength([BACKSLASH, b]) == 2 <==> b as char in "\"\\/bfnrt"
    ensures UnitLength([b]) == 1 <==> b >= 32 && b as char !in "\"\\"
    ensures [Opening(true), Closing(true), Opening(false), Closing(false), COLON, COMMA] == Ascii("{}[]:,")
  {
  }

  predicate IsBody(raw: text)
    decreases |raw|
  {
    raw == [] || (UnitLength(raw) != 0 && IsBody(raw[UnitLength(raw)..]))
  }

  function NumberOf(digits: text): nat
    requires forall i :: 0 <= i < |digits| ==> IsDigit(digits[i])
  {
    if digits == [] then 0
    else
      assert IsDigit(digits[|digits| - 1]);
      10 * NumberOf(digits[..|digits| - 1]) + (digits[|digits| - 1] as int - 0x30)
  }

  predicate IsNumber(digits: text) {
    && digits != []
    && (forall i :: 0 <= i < |digits| ==> IsDigit(digits[i]))
    && (digits[0] == 0x30 ==> |digits| == 1)
    && NumberOf(digits) <= U64_MAX
  }

  /** The decimal text of a number, by repeated division. */
  function Decimal(n: nat): text {
    if n < 10 then [0x30 + n] else Decimal(n / 10) + [0x30 + n % 10]
  }

  /** Reading the decimal text of a number returns that number. */
  lemma {:induction false} DecimalReads(n: nat)
    ensures var digits := Decimal(n);
            && digits != [] && (forall i :: 0 <= i < |digits| ==> IsDigit(digits[i]))
            && (digits[0] == 0x30 <==> n == 0) && (n < 10 <==> |digits| == 1) && NumberOf(digits) == n
  {
    var digits := Decimal(n);
    if n < 10 {
      assert digits[..0] == [] && NumberOf(digits[..0]) == 0;
    } else {
      DecimalReads(n / 10);
      assert digits[..|digits| - 1] == Decimal(n / 10);
    }
  }

  /** A number below the k-th power of ten has at most k digits. */
  lemma {:induction false} DecimalLength(n: nat, k: nat)
    requires 0 < k && n < Pow10(k)
    ensures |Decimal(n)| <= k
  {
    if n >= 10 {
      DecimalLength(n / 10, k - 1);
    }
  }

  /** A 64-bit word has at most twenty digits. */
  lemma WordLength(n: nat)
    requires n <= U64_MAX
    ensures |Decimal(n)| <= 20
  {
    assert Pow10(4) == 10000;
    assert Pow10(8) == 10000 * Pow10(4);
    assert Pow10(12) == 10000 * Pow10(8);
    assert Pow10(16) == 10000 * Pow10(12);
    assert Pow10(20) == 10000 * Pow10(16);
    DecimalLength(n, 20);
  }

  /** Every run of digits without a leading zero is the decimal text of the number it is read as. */
  lemma {:induction false} ReadsDecimal(digits: text)
    requires digits != [] && (forall i :: 0 <= i < |digits| ==> IsDigit(digits[i]))
    requires digits[0] == 0x30 ==> |digits| == 1
    ensures Decimal(NumberOf(digits)) == digits && (digits[0] != 0x30 ==> NumberOf(digits) > 0)
  {
    var init, last := digits[..|digits| - 1], digits[|digits| - 1];
    assert IsDigit(last) && digits == init + [last];
    if init == [] {
      assert NumberOf(init) == 0;
    } else {
      ReadsDecimal(init);
      assert NumberOf(digits) / 10 == NumberOf(init) && NumberOf(digits) % 10 == last - 0x30;
    }
  }

  /** The numbers of the subset are the decimal texts of the 64-bit words, each of exactly one. */
  lemma NumbersAreDecimal(digits: text, n: nat)
    ensures IsNumber(digits) && NumberOf(digits) == n <==> n <= U64_MAX && digits == Decimal(n)
  {
    DecimalReads(n);
    if IsNumber(digits) {
      ReadsDecimal(digits);
    }
  }

  predicate IsLabel(keyed: bool, l: Label) {
    && AllSpace(l.before) && AllSpace(l.beforeColon) && AllSpace(l.afterColon)
    && IsBody(l.key)
    && (!keyed ==> l.key == [] && l.beforeColon == [] && l.afterColon == [])
  }

  predicate WellFormed(v: Value)
    decreases v, 0
  {
    match v
    case Null => true
    case Bool(_) => true
    case Number(digits) => IsNumber(digits)
    case String(raw) => IsBody(raw)
    case Container(keyed, pad, kids) =>
      AllSpace(pad) && (kids != [] ==> pad == []) && KidsWellFormed(keyed, kids)
  }

  predicate KidsWellFormed(keyed: bool, kids: seq<Kid>)
    decreases kids, 0
  {
    kids == [] ||
    (&& IsLabel(keyed, kids[0].lbl) && WellFormed(kids[0].value) && AllSpace(kids[0].after)
     && (keyed ==> kids[0].lbl.key !in Keys(kids[1..]))
     && KidsWellFormed(keyed, kids[1..]))
  }

  function Keys(kids: seq<Kid>): set<text> {
    set k | k in kids :: k.lbl.key
  }

  /** How many containers deep the deepest child sits. */
  function Height(v: Value): nat
    decreases v, 0
  {
    if v.Container? && v.kids != [] then 1 + KidsHeight(v.kids) else 0
  }

  function KidsHeight(kids: seq<Kid>): nat
    decreases kids, 0
  {
    if kids == [] then 0
    else
      var first, rest := Height(kids[0].value), KidsHeight(kids[1..]);
      if first > rest then first else rest
  }

  // ---- A parser on values ----

  datatype Parse<+T> = Failed | Parsed(value: T, rest: text)

  function Spaces(s: text): (r: text)
    ensures |r| <= |s| && AllSpace(r) && s[..|r|] == r
  {
    if s == [] || !IsSpace(s[0]) then [] else [s[0]] + Spaces(s[1..])
  }

  function Skip(s: text): (r: text)
    ensures s == Spaces(s) + r && |r| <= |s|
    ensures r == [] || !IsSpace(r[0])
  {
    if s == [] || !IsSpace(s[0]) then s else Skip(s[1..])
  }

  /** A string body up to and including its closing quote. */
  function ParseBody(s: text): (r: Parse<text>)
    ensures r.Parsed? ==> |r.rest| < |s|
    decreases |s|
  {
    if s == [] then Failed
    else if s[0] == QUOTE then Parsed([], s[1..])
    else if UnitLength(s) == 0 then Failed
    else
      var n := UnitLength(s);
      var more := ParseBody(s[n..]);
      if more.Failed? then Failed else Parsed(s[..n] + more.value, more.rest)
  }

  function ParseString(s: text): (r: Parse<text>)
    ensures r.Parsed? ==> |r.rest| < |s|
  {
    if s == [] || s[0] != QUOTE then Failed else ParseBody(s[1..])
  }

  function Digits(s: text): (r: text)
    ensures |r| <= |s| && s[..|r|] == r
    ensures forall i :: 0 <= i < |r| ==> IsDigit(r[i])
    ensures |r| < |s| ==> !IsDigit(s[|r|])
  {
    if s == [] || !IsDigit(s[0]) then [] else [s[0]] + Digits(s[1..])
  }

  function ParseNumber(s: text): (r: Parse<text>)
    ensures r.Parsed? ==> |r.rest| < |s|
  {
    var digits := Digits(s);
    if digits == [] || (digits[0] == 0x30 && |digits| > 1) || NumberOf(digits) > U64_MAX then Failed
    else Parsed(digits, s[|digits|..])
  }

  function ParseLabel(keyed: bool, s: text): (r: Parse<Label>)
    ensures r.Parsed? ==> |r.rest| <= |s|
  {
    if !keyed then Parsed(Label(Spaces(s), [], [], []), Skip(s))
    else
      var key := ParseString(Skip(s));
      if key.Failed? then Failed
      else
        var colon := Skip(key.rest);
        if colon == [] || colon[0] != COLON then Failed
        else Parsed(Label(Spaces(s), key.value, Spaces(key.rest), Spaces(colon[1..])), Skip(colon[1..]))
  }

  function ParseValue(s: text, depth: int): (r: Parse<Value>)
    ensures r.Parsed? ==> |r.rest| < |s|
    decreases |s|, 1
  {
    if depth < 0 || s == [] then Failed
    else if s[0] == QUOTE then
      var body := ParseString(s);
      if body.Failed? then Failed else Parsed(String(body.value), body.rest)
    else if s[0] == Opening(true) then ParseContainer(true, s, depth)
    else if s[0] == Opening(false) then ParseContainer(false, s, depth)
    else ParseWord(s)
  }

  function ParseWord(s: text): (r: Parse<Value>)
    ensures r.Parsed? ==> |r.rest| < |s|
  {
    if TRUE <= s then Parsed(Bool(true), s[4..])
    else if FALSE <= s then Parsed(Bool(false), s[5..])
    else if NULL <= s then Parsed(Null, s[4..])
    else
      var digits := ParseNumber(s);
      if digits.Failed? then Failed else Parsed(Number(digits.value), digits.rest)
  }

  function ParseContainer(keyed: bool, s: text, depth: int): (r: Parse<Value>)
    requires s != []
    ensures r.Parsed? ==> |r.rest| < |s| && r.value.Container? && r.value.keyed == keyed
    decreases |s|, 0
  {
    var inner := Skip(s[1..]);
    if inner != [] && inner[0] == Closing(keyed) then Parsed(Container(keyed, Spaces(s[1..]), []), inner[1..])
    else
      var kids := ParseKids(keyed, s[1..], depth - 1, {});
      if kids.Failed? then Failed else Parsed(Container(keyed, [], kids.value), kids.rest)
  }

  /** Children up to and including the closing bracket; `seen` holds the keys before them. */
  function ParseKids(keyed: bool, s: text, depth: int, seen: set<text>): (r: Parse<seq<Kid>>)
    ensures r.Parsed? ==> |r.rest| < |s| && r.value != []
    decreases |s|, 2
  {
    var lbl := ParseLabel(keyed, s);
    if lbl.Failed? || (keyed && lbl.value.key in seen) then Failed
    else
      var value := ParseValue(lbl.rest, depth);
      if value.Failed? then Failed
      else
        var kid, end := Kid(lbl.value, value.value, Spaces(value.rest)), Skip(value.rest);
        if end != [] && end[0] == Closing(keyed) then Parsed([kid], end[1..])
        else if end == [] || end[0] != COMMA then Failed
        else
          var more := ParseKids(keyed, end[1..], depth, seen + {lbl.value.key});
          if more.Failed? then Failed else Parsed([kid] + more.value, more.rest)
  }

  // ---- The parser accepts nothing else ----

  lemma Uncons(s: text)
    requires s != []
    ensures s == [s[0]] + s[1..]
  {
  }

  lemma {:induction false} BodySound(s: text)
    requires ParseBody(s).Parsed?
    ensures var p := ParseBody(s); s == p.value + ([QUOTE] + p.rest) && IsBody(p.value)
    decreases |s|
  {
    Uncons(s);
    if s[0] != QUOTE {
      var n := UnitLength(s);
      BodySound(s[n..]);
      BodyCons(s, n, ParseBody(s[n..]).value, ParseBody(s[n..]).rest);
    } else {
      assert [] + ([QUOTE] + s[1..]) == s;
    }
  }

  lemma BodyCons(s: text, n: nat, body: text, rest: text)
    requires s != [] && n == UnitLength(s) != 0
    requires IsBody(body) && s[n..] == body + ([QUOTE] + rest)
    ensures s == (s[..n] + body) + ([QUOTE] + rest) && IsBody(s[..n] + body)
  {
    hide UnitLength;
    assert s == s[..n] + s[n..];
    var whole := s[..n] + body;
    assert whole[..n] == s[..n] && whole[n..] == body;
    UnitIsLocal(s, whole);
  }

  /** A string character is recognised by its own bytes. */
  lemma UnitIsLocal(s: text, t: text)
    requires s != [] && t != [] && UnitLength(s) != 0
    requires UnitLength(s) <= |t| && s[..UnitLength(s)] == t[..UnitLength(s)]
    ensures UnitLength(t) == UnitLength(s)
  {
    var n := UnitLength(s);
    assert forall i :: 0 <= i < n ==> s[i] == s[..n][i] == t[..n][i] == t[i];
  }

  lemma LabelSound(keyed: bool, s: text)
    requires ParseLabel(keyed, s).Parsed?
    ensures var p := ParseLabel(keyed, s);
            s == LabelOnto(keyed, p.value, p.rest) && IsLabel(keyed, p.value)
  {
    hide Spaces, Skip, ParseBody, IsBody;
    if keyed {
      var key := ParseString(Skip(s));
      BodySound(Skip(s)[1..]);
      Uncons(Skip(s));
      Uncons(Skip(key.rest));
    } else {
      assert IsBody([]) by { EmptyBody(); }
    }
  }

  lemma EmptyBody()
    ensures IsBody([])
  {
  }

  lemma {:induction false} ValueSound(s: text, depth: int)
    requires ParseValue(s, depth).Parsed?
    ensures var p := ParseValue(s, depth);
            s == Onto(p.value, p.rest) && WellFormed(p.value) && Height(p.value) <= depth
    decreases |s|, 1
  {
    hide Skip, Spaces, ParseBody, IsBody, Digits, ParseContainer;
    if s[0] == QUOTE {
      BodySound(s[1..]);
      Uncons(s);
    } else if s[0] == Opening(true) {
      ContainerSound(true, s, depth);
    } else if s[0] == Opening(false) {
      ContainerSound(false, s, depth);
    } else if TRUE <= s || FALSE <= s || NULL <= s {
    } else {
      var digits := Digits(s);
      assert s == digits + s[|digits|..];
    }
  }

  lemma {:induction false} ContainerSound(keyed: bool, s: text, depth: int)
    requires s != [] && s[0] == Opening(keyed) && depth >= 0
    requires ParseContainer(keyed, s, depth).Parsed?
    ensures var p := ParseContainer(keyed, s, depth);
            s == Onto(p.value, p.rest) && WellFormed(p.value) && Height(p.value) <= depth
    decreases |s|, 0
  {
    hide Skip, Spaces, ParseKids, Onto, KidsOnto, WellFormed, KidsWellFormed, Height, KidsHeight;
    var inner := Skip(s[1..]);
    var v, rest := ParseContainer(keyed, s, depth).value, ParseContainer(keyed, s, depth).rest;
    Uncons(s);
    if inner != [] && inner[0] == Closing(keyed) {
      Uncons(inner);
      NoKids(keyed, inner);
      assert v.pad + inner == s[1..];
    } else {
      KidsSound(keyed, s[1..], depth - 1, {});
      assert [] + s[1..] == s[1..];
    }
    MakeContainer(v);
    UnfoldOnto(v, rest);
  }

  lemma MakeContainer(v: Value)
    requires v.Container? && AllSpace(v.pad) && (v.kids != [] ==> v.pad == [])
    requires v.kids != [] ==> KidsWellFormed(v.keyed, v.kids)
    ensures WellFormed(v) && Height(v) == if v.kids == [] then 0 else 1 + KidsHeight(v.kids)
  {
  }

  lemma {:induction false} KidsSound(keyed: bool, s: text, depth: int, seen: set<text>)
    requires ParseKids(keyed, s, depth, seen).Parsed?
    ensures var p := ParseKids(keyed, s, depth, seen);
            && s == KidsOnto(keyed, p.value, [Closing(keyed)] + p.rest)
            && KidsWellFormed(keyed, p.value) && KidsHeight(p.value) <= depth
            && (keyed ==> Keys(p.value) !! seen)
    decreases |s|, 2
  {
    hide Skip, Spaces, ParseLabel, ParseValue, LabelOnto, Onto;
    var lbl := ParseLabel(keyed, s);
    LabelSound(keyed, s);
    var value := ParseValue(lbl.rest, depth);
    ValueSound(lbl.rest, depth);
    var kid, end := Kid(lbl.value, value.value, Spaces(value.rest)), Skip(value.rest);
    Uncons(end);
    var p := ParseKids(keyed, s, depth, seen);
    if end[0] == Closing(keyed) {
      assert p.value == [kid] && [kid][1..] == [];
    } else {
      KidsSound(keyed, end[1..], depth, seen + {lbl.value.key});
      var more := ParseKids(keyed, end[1..], depth, seen + {lbl.value.key});
      assert p.value == [kid] + more.value && p.value[1..] == more.value;
    }
  }

  // ---- The parser accepts everything in the subset ----

  /** What must not follow a number, a space, or an opening bracket. */
  predicate Starts(s: text, p: byte -> bool) {
    s != [] && p(s[0])
  }

  lemma {:induction false} SkipComplete(w: text, rest: text)
    requires AllSpace(w) && !Starts(rest, IsSpace)
    ensures Spaces(w + rest) == w && Skip(w + rest) == rest
    decreases |w|
  {
    if w == [] {
      assert w + rest == rest;
    } else {
      assert IsSpace((w + rest)[0]) && (w + rest)[1..] == w[1..] + rest;
      SkipComplete(w[1..], rest);
    }
  }

  lemma {:induction false} BodyComplete(raw: text, rest: text)
    requires IsBody(raw)
    ensures ParseBody(raw + ([QUOTE] + rest)) == Parsed(raw, rest)
    decreases |raw|
  {
    hide UnitLength;
    var s := raw + ([QUOTE] + rest);
    if raw == [] {
      assert s == [QUOTE] + rest && s[1..] == rest;
    } else {
      var n := UnitLength(raw);
      assert s[..n] == raw[..n] && s[n..] == raw[n..] + ([QUOTE] + rest);
      UnitIsLocal(raw, s);
      UnitNotQuote(s);
      BodyComplete(raw[n..], rest);
      assert raw == raw[..n] + raw[n..];
    }
  }

  lemma UnitNotQuote(s: text)
    requires s != [] && UnitLength(s) != 0
    ensures s[0] != QUOTE
  {
  }

  lemma {:induction false} DigitsComplete(digits: text, rest: text)
    requires (forall i :: 0 <= i < |digits| ==> IsDigit(digits[i])) && !Starts(rest, IsDigit)
    ensures Digits(digits + rest) == digits
    decreases |digits|
  {
    if digits == [] {
      assert digits + rest == rest;
    } else {
      assert IsDigit((digits + rest)[0]) && (digits + rest)[1..] == digits[1..] + rest;
      DigitsComplete(digits[1..], rest);
    }
  }

  lemma LabelComplete(keyed: bool, l: Label, rest: text)
    requires IsLabel(keyed, l) && !Starts(rest, IsSpace)
    ensures ParseLabel(keyed, LabelOnto(keyed, l, rest)) == Parsed(l, rest)
  {
    hide Spaces, Skip, ParseBody, IsBody;
    if keyed {
      var colon := [COLON] + (l.afterColon + rest);
      var body := l.key + ([QUOTE] + (l.beforeColon + colon));
      var quoted := [QUOTE] + body;
      SkipComplete(l.before, quoted);
      assert quoted[1..] == body;
      BodyComplete(l.key, l.beforeColon + colon);
      SkipComplete(l.beforeColon, colon);
      assert colon[1..] == l.afterColon + rest;
      SkipComplete(l.afterColon, rest);
    } else {
      SkipComplete(l.before, rest);
    }
  }

  predicate StartsValue(b: byte) {
    b == QUOTE || b == Opening(true) || b == Opening(false) || b == 0x74 || b == 0x66 || b == 0x6E || IsDigit(b)
  }

  lemma ValueStart(v: Value, rest: text)
    requires WellFormed(v)
    ensures Starts(Onto(v, rest), StartsValue)
  {
    hide WellFormed, KidsOnto, Onto;
    match v {
      case Number(digits) =>
        assert IsNumber(digits) by { UnfoldWellFormed(v); }
        assert IsDigit(digits[0]);
      case _ =>
    }
    UnfoldOnto(v, rest);
  }

  lemma UnfoldWellFormed(v: Value)
    requires WellFormed(v)
    ensures v.Number? ==> IsNumber(v.digits)
    ensures v.String? ==> IsBody(v.raw)
    ensures v.Container? ==> AllSpace(v.pad) && (v.kids != [] ==> v.pad == []) && KidsWellFormed(v.keyed, v.kids)
  {
  }

  lemma UnfoldOnto(v: Value, rest: text)
    ensures match v {
              case Null => Onto(v, rest) == NULL + rest
              case Bool(b) => Onto(v, rest) == (if b then TRUE else FALSE) + rest
              case Number(digits) => Onto(v, rest) == digits + rest
              case String(raw) => Onto(v, rest) == [QUOTE] + (raw + ([QUOTE] + rest))
              case Container(keyed, pad, kids) =>
                Onto(v, rest) == [Opening(keyed)] + (pad + KidsOnto(keyed, kids, [Closing(keyed)] + rest))
            }
  {
  }

  lemma ScalarComplete(v: Value, rest: text, depth: int)
    requires WellFormed(v) && depth >= 0 && !Starts(rest, IsDigit) && !v.Container?
    ensures ParseValue(Onto(v, rest), depth) == Parsed(v, rest)
  {
    hide ParseBody, IsBody, Digits, ParseContainer, WellFormed, NumberOf;
    UnfoldWellFormed(v);
    UnfoldOnto(v, rest);
    hide Onto;
    var s := Onto(v, rest);
    match v {
      case String(raw) =>
        assert s[1..] == raw + ([QUOTE] + rest);
        BodyComplete(raw, rest);
      case Number(digits) =>
        DigitsComplete(digits, rest);
        assert IsDigit(digits[0]) && s[0] == digits[0];
        assert s[|digits|..] == rest;
      case Null =>
        assert s[4..] == rest;
      case Bool(b) =>
        assert b ==> s[4..] == rest;
        assert !b ==> s[5..] == rest && s[0] == 0x66;
    }
  }

  lemma {:induction false} ValueComplete(v: Value, rest: text, depth: int)
    requires WellFormed(v) && Height(v) <= depth && !Starts(rest, IsDigit)
    ensures ParseValue(Onto(v, rest), depth) == Parsed(v, rest)
    decreases v, 1
  {
    if v.Container? {
      ContainerComplete(v, rest, depth);
      OpensContainer(v, rest, depth);
    } else {
      ScalarComplete(v, rest, depth);
    }
  }

  lemma OpensContainer(v: Value, rest: text, depth: int)
    requires v.Container? && depth >= 0
    ensures Onto(v, rest) != []
    ensures ParseValue(Onto(v, rest), depth) == ParseContainer(v.keyed, Onto(v, rest), depth)
  {
    hide ParseContainer, KidsOnto;
  }

  /** Opening a container, given what follows the bracket. */
  lemma ContainerTurn(keyed: bool, s: text, depth: int)
    requires s != [] && Skip(s[1..]) != []
    ensures ParseContainer(keyed, s, depth)
            == if Skip(s[1..])[0] == Closing(keyed)
               then Parsed(Container(keyed, Spaces(s[1..]), []), Skip(s[1..])[1..])
               else
                 var kids := ParseKids(keyed, s[1..], depth - 1, {});
                 if kids.Failed? then Failed else Parsed(Container(keyed, [], kids.value), kids.rest)
  {
  }

  lemma UnfoldHeight(v: Value)
    ensures v.Container? && v.kids != [] ==> Height(v) == 1 + KidsHeight(v.kids)
  {
  }

  lemma {:induction false} ContainerComplete(v: Value, rest: text, depth: int)
    requires v.Container? && WellFormed(v) && Height(v) <= depth
    ensures Onto(v, rest) != [] && ParseContainer(v.keyed, Onto(v, rest), depth) == Parsed(v, rest)
    decreases v, 0
  {
    hide *;
    var s, kids, close := Onto(v, rest), v.kids, [Closing(v.keyed)] + rest;
    UnfoldOnto(v, rest);
    UnfoldWellFormed(v);
    UnfoldHeight(v);
    assert s[1..] == v.pad + KidsOnto(v.keyed, kids, close);
    if kids == [] {
      Punctuation(v.keyed);
      NoKids(v.keyed, close);
      AfterKid(v.pad, close);
      assert close[1..] == rest;
    } else {
      assert s[1..] == KidsOnto(v.keyed, kids, close);
      KidsStart(v.keyed, kids, close);
      StartsAny(Skip(s[1..]));
      KidsComplete(v.keyed, kids, rest, depth - 1, {});
    }
    ContainerTurn(v.keyed, s, depth);
  }

  lemma NoKids(keyed: bool, rest: text)
    ensures KidsOnto(keyed, [], rest) == rest
  {
  }

  lemma KidsStart(keyed: bool, kids: seq<Kid>, rest: text)
    requires kids != [] && KidsWellFormed(keyed, kids)
    ensures Starts(Skip(KidsOnto(keyed, kids, rest)), StartsValue)
  {
    var tail := if |kids| == 1 then rest else [COMMA] + KidsOnto(keyed, kids[1..], rest);
    var l, value := kids[0].lbl, Onto(kids[0].value, kids[0].after + tail);
    hide Spaces, Skip, Onto, KidsOnto;
    ValueStart(kids[0].value, kids[0].after + tail);
    assert KidsOnto(keyed, kids, rest) == LabelOnto(keyed, l, value) by { UnfoldKids(keyed, kids, rest); }
    if keyed {
      SkipComplete(l.before, [QUOTE] + (l.key + ([QUOTE] + (l.beforeColon + ([COLON] + (l.afterColon + value))))));
    } else {
      SkipComplete(l.before, value);
    }
  }

  lemma UnfoldKids(keyed: bool, kids: seq<Kid>, rest: text)
    requires kids != []
    ensures var tail := if |kids| == 1 then rest else [COMMA] + KidsOnto(keyed, kids[1..], rest);
            KidsOnto(keyed, kids, rest)
            == LabelOnto(keyed, kids[0].lbl, Onto(kids[0].value, kids[0].after + tail))
  {
  }

  lemma FirstKid(keyed: bool, kids: seq<Kid>)
    requires kids != [] && KidsWellFormed(keyed, kids)
    ensures IsLabel(keyed, kids[0].lbl) && WellFormed(kids[0].value) && AllSpace(kids[0].after)
    ensures KidsWellFormed(keyed, kids[1..]) && (keyed ==> kids[0].lbl.key !in Keys(kids[1..]))
    ensures Height(kids[0].value) <= KidsHeight(kids) && KidsHeight(kids[1..]) <= KidsHeight(kids)
    ensures kids[0].lbl.key in Keys(kids) && Keys(kids[1..]) <= Keys(kids)
  {
    assert kids[0] in kids;
  }

  /** One turn of the children loop, given what its label and value parse to. */
  lemma KidsTurn(keyed: bool, s: text, depth: int, seen: set<text>, l: Label, v: Value, valueText: text, rest: text)
    requires ParseLabel(keyed, s) == Parsed(l, valueText) && ParseValue(valueText, depth) == Parsed(v, rest)
    requires !(keyed && l.key in seen)
    requires Skip(rest) != [] && (Skip(rest)[0] == Closing(keyed) || Skip(rest)[0] == COMMA)
    ensures var kid, end := Kid(l, v, Spaces(rest)), Skip(rest);
            ParseKids(keyed, s, depth, seen)
            == if end[0] == Closing(keyed) then Parsed([kid], end[1..])
               else
                 var more := ParseKids(keyed, end[1..], depth, seen + {l.key});
                 if more.Failed? then Failed else Parsed([kid] + more.value, more.rest)
  {
  }

  lemma {:induction false} KidsComplete(keyed: bool, kids: seq<Kid>, rest: text, depth: int, seen: set<text>)
    requires kids != [] && KidsWellFormed(keyed, kids) && KidsHeight(kids) <= depth
    requires keyed ==> Keys(kids) !! seen
    ensures ParseKids(keyed, KidsOnto(keyed, kids, [Closing(keyed)] + rest), depth, seen) == Parsed(kids, rest)
    decreases kids, 0
  {
    hide *;
    var close := [Closing(keyed)] + rest;
    var s, kid := KidsOnto(keyed, kids, close), kids[0];
    var tail := if |kids| == 1 then close else [COMMA] + KidsOnto(keyed, kids[1..], close);
    var after := kid.after + tail;
    FirstKid(keyed, kids);
    UnfoldKids(keyed, kids, close);
    Punctuation(keyed);
    AfterKid(kid.after, tail);
    ValueStart(kid.value, after);
    StartsAny(Onto(kid.value, after));
    LabelComplete(keyed, kid.lbl, Onto(kid.value, after));
    ValueComplete(kid.value, after, depth);
    KidsTurn(keyed, s, depth, seen, kid.lbl, kid.value, Onto(kid.value, after), after);
    if |kids| == 1 {
      assert tail[1..] == rest && kids == [kid];
    } else {
      KidsComplete(keyed, kids[1..], rest, depth, seen + {kid.lbl.key});
      assert tail[1..] == KidsOnto(keyed, kids[1..], close);
      assert kids == [kid] + kids[1..];
    }
  }

  lemma Punctuation(keyed: bool)
    ensures Closing(keyed) != COMMA
    ensures !IsSpace(COMMA) && !IsDigit(COMMA) && !IsSpace(Closing(keyed)) && !IsDigit(Closing(keyed))
  {
  }

  /** A value never starts with a space or a closing bracket. */
  lemma StartsAny(s: text)
    requires Starts(s, StartsValue)
    ensures s != [] && !Starts(s, IsSpace) && s[0] != Closing(true) && s[0] != Closing(false)
  {
  }

  lemma AfterKid(after: text, tail: text)
    requires AllSpace(after) && tail != [] && !IsSpace(tail[0]) && !IsDigit(tail[0])
    ensures Spaces(after + tail) == after && Skip(after + tail) == tail && !Starts(after + tail, IsDigit)
  {
    SkipComplete(after, tail);
    if after != [] {
      assert IsSpace(after[0]);
    }
  }

  // ---- Whole documents ----

  /** A document: one value with spaces around it. */
  datatype Document = Document(before: text, value: Value, after: text)

  function DocumentText(d: Document): text {
    d.before + Onto(d.value, d.after)
  }

  predicate DocumentWellFormed(d: Document) {
    AllSpace(d.before) && WellFormed(d.value) && AllSpace(d.after)
  }

  function ParseDocument(s: text, depth: int): Option<Document> {
    var v := ParseValue(Skip(s), depth);
    if v.Failed? || Skip(v.rest) != [] then None else Some(Document(Spaces(s), v.value, v.rest))
  }

  /** Parsing succeeds exactly on the texts of the subset, and returns the one tree they are the text of. */
  lemma ParsesExactly(s: text, depth: int, d: Document)
    ensures ParseDocument(s, depth) == Some(d)
            <==> DocumentWellFormed(d) && Height(d.value) <= depth && s == DocumentText(d)
  {
    hide Skip, Spaces, ParseValue, Onto;
    if ParseDocument(s, depth) == Some(d) {
      ValueSound(Skip(s), depth);
      assert d.after == Spaces(d.after) + [] == Spaces(d.after);
    }
    if DocumentWellFormed(d) && Height(d.value) <= depth && s == DocumentText(d) {
      ValueStart(d.value, d.after);
      SkipComplete(d.before, Onto(d.value, d.after));
      if d.after != [] {
        assert IsSpace(d.after[0]);
      }
      ValueComplete(d.value, d.after, depth);
      assert d.after + [] == d.after;
      SkipComplete(d.after, []);
    }
  }
}
