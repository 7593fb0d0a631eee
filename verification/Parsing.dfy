/** Reading JSON text back, as section 2 to 7 of RFC 8259 describe it, without white space between
    tokens. Numbers stay literals. Strings are UTF-8 with escapes; an escaped surrogate pair is one
    character.
  */
module Parsing {
  import opened Order
  import opened Json
  import opened Canonical

  datatype Parsed<+T> = Nothing | Parsed(value: T, rest: seq<Byte>)

  // ---------------------------------------------------------------------------------------
  // Strings
  // ---------------------------------------------------------------------------------------

  /** The value of a hexadecimal digit of either case, and 16 for any other byte. */
  function HexOf(b: Byte): nat {
    if '0' as nat <= b <= '9' as nat then b - '0' as nat
    else if 'a' as nat <= b <= 'f' as nat then b - 'a' as nat + 10
    else if 'A' as nat <= b <= 'F' as nat then b - 'A' as nat + 10
    else 16
  }

  predicate FourHex(t: seq<Byte>) {
    |t| >= 4 && HexOf(t[0]) < 16 && HexOf(t[1]) < 16 && HexOf(t[2]) < 16 && HexOf(t[3]) < 16
  }

  function HexNumber(t: seq<Byte>): (n: nat)
    requires FourHex(t)
    ensures n < 0x1_0000
  {
    ((HexOf(t[0]) * 16 + HexOf(t[1])) * 16 + HexOf(t[2])) * 16 + HexOf(t[3])
  }

  /** `\uXXXX` at the start of the text. */
  predicate HexEscape(t: seq<Byte>) {
    |t| >= 6 && t[0] == '\\' as nat && t[1] == 'u' as nat && FourHex(t[2..])
  }

  function Escaped(t: seq<Byte>): (r: Parsed<CodePoint>)
    requires |t| >= 1 && t[0] == '\\' as nat
    ensures r.Parsed? ==> |r.rest| < |t|
  {
    if HexEscape(t) then
      var high := HexNumber(t[2..]);
      if 0xD800 <= high < 0xDC00 && HexEscape(t[6..]) && 0xDC00 <= HexNumber(t[8..]) < 0xE000 then
        Parsed(0x1_0000 + (high - 0xD800) * 0x400 + (HexNumber(t[8..]) - 0xDC00), t[12..])
      else Parsed(high, t[6..])
    else if |t| < 2 then Nothing
    else if t[1] == '"' as nat then Parsed('"' as nat, t[2..])
    else if t[1] == '\\' as nat then Parsed('\\' as nat, t[2..])
    else if t[1] == '/' as nat then Parsed('/' as nat, t[2..])
    else if t[1] == 'b' as nat then Parsed(8, t[2..])
    else if t[1] == 'f' as nat then Parsed(12, t[2..])
    else if t[1] == 'n' as nat then Parsed(10, t[2..])
    else if t[1] == 'r' as nat then Parsed(13, t[2..])
    else if t[1] == 't' as nat then Parsed(9, t[2..])
    else Nothing
  }

  predicate Continues(t: seq<Byte>, i: nat) {
    i < |t| && 0x80 <= t[i] < 0xC0
  }

  /** The six bits of a continuation byte. */
  function Bits(t: seq<Byte>, i: nat): nat
    requires Continues(t, i)
  {
    t[i] - 0x80
  }

  /** One UTF-8 sequence, without over-long forms, surrogates and numbers out of range. */
  function Utf8Char(t: seq<Byte>): (r: Parsed<CodePoint>)
    requires |t| >= 1
    ensures r.Parsed? ==> |r.rest| < |t|
  {
    if t[0] < 0x80 then Parsed(t[0], t[1..])
    else if 0xC0 <= t[0] < 0xE0 && Continues(t, 1) then
      var lead: nat := t[0] - 0xC0;
      var c := lead * 64 + Bits(t, 1);
      if c >= 0x80 then Parsed(c, t[2..]) else Nothing
    else if 0xE0 <= t[0] < 0xF0 && Continues(t, 1) && Continues(t, 2) then
      var lead: nat := t[0] - 0xE0;
      var c := (lead * 64 + Bits(t, 1)) * 64 + Bits(t, 2);
      if c >= 0x800 && !IsSurrogate(c) then Parsed(c, t[3..]) else Nothing
    else if 0xF0 <= t[0] && Continues(t, 1) && Continues(t, 2) && Continues(t, 3) then
      var lead: nat := t[0] - 0xF0;
      var c := ((lead * 64 + Bits(t, 1)) * 64 + Bits(t, 2)) * 64 + Bits(t, 3);
      if 0x1_0000 <= c < 0x11_0000 then Parsed(c, t[4..]) else Nothing
    else Nothing
  }

  /** The rest of a string literal after its opening quote. */
  function ParseString(t: seq<Byte>): (r: Parsed<Text>)
    ensures r.Parsed? ==> |r.rest| < |t|
    decreases |t|
  {
    if t == [] || t[0] < 32 then Nothing
    else if t[0] == '"' as nat then Parsed([], t[1..])
    else
      var c := if t[0] == '\\' as nat then Escaped(t) else Utf8Char(t);
      if c.Nothing? then Nothing
      else
        var more := ParseString(c.rest);
        if more.Nothing? then Nothing else Parsed([c.value] + more.value, more.rest)
  }

  // ---------------------------------------------------------------------------------------
  // Values
  // ---------------------------------------------------------------------------------------

  /** The text starts with this word. */
  predicate Starts(t: seq<Byte>, word: string) {
    |t| >= |word| && forall i :: 0 <= i < |word| ==> t[i] == word[i] as nat
  }

  /** How many bytes a number at the start takes: everything up to a delimiter. */
  function NumberRun(t: seq<Byte>): (n: nat)
    ensures n <= |t|
  {
    if t == [] || Starts(t, ",") || Starts(t, "]") || Starts(t, "}") then 0 else 1 + NumberRun(t[1..])
  }

  function ParseValue(t: seq<Byte>): (r: Parsed<Value>)
    ensures r.Parsed? ==> |r.rest| < |t|
    decreases |t|, 0
  {
    if Starts(t, "null") then Parsed(Null, t[4..])
    else if Starts(t, "true") then Parsed(Bool(true), t[4..])
    else if Starts(t, "false") then Parsed(Bool(false), t[5..])
    else if Starts(t, "\"") then
      var s := ParseString(t[1..]);
      if s.Nothing? then Nothing else Parsed(Str(s.value), s.rest)
    else if Starts(t, "[]") then Parsed(Arr([]), t[2..])
    else if Starts(t, "[") then
      var items := ParseItems(t[1..]);
      if items.Nothing? then Nothing else Parsed(Arr(items.value), items.rest)
    else if Starts(t, "{}") then Parsed(Obj([]), t[2..])
    else if Starts(t, "{") then
      var fields := ParseFields(t[1..]);
      if fields.Nothing? then Nothing else Parsed(Obj(fields.value), fields.rest)
    else
      var n := NumberRun(t);
      if n == 0 then Nothing else Parsed(Num(t[..n]), t[n..])
  }

  /** One item or more, up to the closing bracket. */
  function ParseItems(t: seq<Byte>): (r: Parsed<seq<Value>>)
    ensures r.Parsed? ==> |r.rest| < |t|
    decreases |t|, 1
  {
    var v := ParseValue(t);
    if v.Nothing? then Nothing
    else if Starts(v.rest, "]") then Parsed([v.value], v.rest[1..])
    else if Starts(v.rest, ",") then
      var more := ParseItems(v.rest[1..]);
      if more.Nothing? then Nothing else Parsed([v.value] + more.value, more.rest)
    else Nothing
  }

  /** One field or more, up to the closing brace. */
  function ParseFields(t: seq<Byte>): (r: Parsed<seq<Field>>)
    ensures r.Parsed? ==> |r.rest| < |t|
    decreases |t|, 1
  {
    var key := if Starts(t, "\"") then ParseString(t[1..]) else Nothing;
    if key.Nothing? || !Starts(key.rest, ":") then Nothing
    else
      var v := ParseValue(key.rest[1..]);
      if v.Nothing? then Nothing
      else if Starts(v.rest, "}") then Parsed([Field(key.value, v.value)], v.rest[1..])
      else if Starts(v.rest, ",") then
        var more := ParseFields(v.rest[1..]);
        if more.Nothing? then Nothing else Parsed([Field(key.value, v.value)] + more.value, more.rest)
      else Nothing
  }

  /** The value, with the fields of every object in key order. */
  function InOrder(v: Value): Value
    decreases v, 1
  {
    match v
    case Arr(items) => Arr(ItemsInOrder(items))
    case Obj(fields) => Obj(Sort(FieldLess, FieldsInOrder(fields)))
    case _ => v
  }

  predicate FieldLess(f: Field, g: Field) {
    Less(f.key, g.key)
  }

  function ItemsInOrder(items: seq<Value>): (r: seq<Value>)
    ensures |r| == |items|
    decreases items, 0
  {
    if items == [] then [] else [InOrder(items[0])] + ItemsInOrder(items[1..])
  }

  function FieldsInOrder(fields: seq<Field>): (r: seq<Field>)
    ensures |r| == |fields|
    decreases fields, 0
  {
    if fields == [] then [] else [Field(fields[0].key, InOrder(fields[0].value))] + FieldsInOrder(fields[1..])
  }

  // ---------------------------------------------------------------------------------------
  // Characters are read back
  // ---------------------------------------------------------------------------------------

  lemma {:induction false} HexBack(n: nat, t: seq<Byte>)
    requires n < 0x1_0000
    ensures HexEscape(UnicodeEscape(n) + t) && HexNumber((UnicodeEscape(n) + t)[2..]) == n
    ensures (UnicodeEscape(n) + t)[6..] == t
  {
    var e := UnicodeEscape(n) + t;
    assert e[2..][..4] == [HexDigit(n / 4096), HexDigit(n / 256 % 16), HexDigit(n / 16 % 16), HexDigit(n % 16)];
    assert HexOf(e[2..][0]) == n / 4096 && HexOf(e[2..][1]) == n / 256 % 16;
    assert HexOf(e[2..][2]) == n / 16 % 16 && HexOf(e[2..][3]) == n % 16;
    Digits16(n);
  }

  lemma {:induction false} Digits16(n: nat)
    ensures ((n / 4096 * 16 + n / 256 % 16) * 16 + n / 16 % 16) * 16 + n % 16 == n
  {
    var q := n / 16;
    QuotientTwice(n);
    QuotientTwice(q);
    assert q / 256 * 16 + q / 16 % 16 == q / 16;
    assert q / 16 * 16 + q % 16 == q;
  }

  lemma {:induction false} QuotientTwice(n: nat)
    ensures n / 256 == n / 16 / 16 && n / 4096 == n / 16 / 256
  {}

  lemma {:induction false} EscapeBack(c: CodePoint, t: seq<Byte>)
    requires !IsSurrogate(c) && AsciiBytes(c) != [c]
    ensures Escaped(AsciiBytes(c) + t) == Parsed(c, t)
  {
    hide UnicodeEscape, HexEscape, HexNumber;
    if c < 0x1_0000 {
      HexBack(c, t);
      assert (UnicodeEscape(c) + t)[0] == 92 by { HexStart(c); }
    } else {
      var high, low := 0xD800 + (c - 0x1_0000) / 1024, 0xDC00 + (c - 0x1_0000) % 1024;
      HexBack(high, UnicodeEscape(low) + t);
      HexBack(low, t);
      HexStart(high);
      var all := AsciiBytes(c) + t;
      assert all == UnicodeEscape(high) + (UnicodeEscape(low) + t);
      assert all[6..] == UnicodeEscape(low) + t && all[8..] == all[6..][2..] && all[12..] == all[6..][6..];
    }
  }

  lemma {:induction false} HexStart(n: nat)
    requires n < 0x1_0000
    ensures UnicodeEscape(n)[0] == 92 && UnicodeEscape(n) != [n]
  {}

  lemma {:induction false} TwoBytesBack(c: CodePoint, t: seq<Byte>)
    requires 0x80 <= c < 0x800
    ensures Utf8Char(Utf8Bytes(c) + t) == Parsed(c, t)
  {
    var s := Utf8Bytes(c) + t;
    assert s[0] == 0xC0 + c / 64 && s[1] == 0x80 + c % 64 && s[2..] == t;
    assert Bits(s, 1) == c % 64;
  }

  lemma {:induction false} ThreeBytesBack(c: CodePoint, t: seq<Byte>)
    requires 0x800 <= c < 0x1_0000 && !IsSurrogate(c)
    ensures Utf8Char(Utf8Bytes(c) + t) == Parsed(c, t)
  {
    Split64(c);
    var s := Utf8Bytes(c) + t;
    assert s[0] == 0xE0 + c / 4096 && s[1] == 0x80 + c / 64 % 64 && s[2] == 0x80 + c % 64 && s[3..] == t;
    assert Bits(s, 1) == c / 64 % 64 && Bits(s, 2) == c % 64;
  }

  lemma {:induction false} FourBytesBack(c: CodePoint, t: seq<Byte>)
    requires c >= 0x1_0000
    ensures Utf8Char(Utf8Bytes(c) + t) == Parsed(c, t)
  {
    Split64(c);
    var s := Utf8Bytes(c) + t;
    assert s[0] == 0xF0 + c / 262144 && s[1] == 0x80 + c / 4096 % 64 && s[2] == 0x80 + c / 64 % 64 && s[3] == 0x80 + c % 64;
    assert Bits(s, 1) == c / 4096 % 64 && Bits(s, 2) == c / 64 % 64 && Bits(s, 3) == c % 64 && s[4..] == t;
  }

  lemma {:induction false} Utf8Back(c: CodePoint, t: seq<Byte>)
    requires !IsSurrogate(c)
    ensures Utf8Char(Utf8Bytes(c) + t) == Parsed(c, t)
  {
    if c < 0x80 {
      assert ([c] + t)[1..] == t;
    } else {
      hide Utf8Bytes, Utf8Char;
      if c < 0x800 { TwoBytesBack(c, t); } else if c < 0x1_0000 { ThreeBytesBack(c, t); } else { FourBytesBack(c, t); }
    }
  }

  /** The character at the start of the inside of a string literal. */
  lemma {:induction false} CharBack(mode: Mode, c: CodePoint, t: seq<Byte>)
    requires !IsSurrogate(c)
    ensures var s := CharBytes(mode, c) + t;
            && s[0] >= 32 && s[0] != 34
            && (if s[0] == 92 then Escaped(s) else Utf8Char(s)) == Parsed(c, t)
  {
    hide Utf8Bytes, AsciiBytes, Escaped, Utf8Char;
    var s := CharBytes(mode, c) + t;
    AsciiPlain(c);
    if ShortEscape(c) != [] {
      ShortBack(c, t);
    } else if (mode.Ascii? && !(32 <= c < 127)) || c < 32 {
      EscapeBack(c, t);
      AsciiStart(c);
    } else {
      Utf8Start(c);
      Utf8Back(c, t);
    }
  }

  lemma {:induction false} ShortBack(c: CodePoint, t: seq<Byte>)
    requires ShortEscape(c) != []
    ensures |ShortEscape(c)| == 2 && ShortEscape(c)[0] == 92 && Escaped(ShortEscape(c) + t) == Parsed(c, t)
  {
    assert (ShortEscape(c) + t)[2..] == t;
  }

  lemma {:induction false} AsciiStart(c: CodePoint)
    requires AsciiBytes(c) != [c]
    ensures AsciiBytes(c)[0] == 92
  {}

  lemma {:induction false} AsciiPlain(c: CodePoint)
    ensures AsciiBytes(c) == [c] <==> 32 <= c < 127
    ensures c < 32 ==> AsciiBytes(c) == UnicodeEscape(c)
  {}

  lemma {:induction false} Utf8Start(c: CodePoint)
    ensures c < 0x80 ==> Utf8Bytes(c) == [c]
    ensures c >= 0x80 ==> Utf8Bytes(c)[0] >= 0xC0
  {}

  /** A string literal is read back, whatever follows it. */
  lemma {:induction false} StringBack(mode: Mode, s: Text, r: seq<Byte>)
    requires Encodable(s)
    ensures ParseString(Chars(mode, s) + [34] + r) == Parsed(s, r)
  {
    hide CharBytes, Escaped, Utf8Char;
    var t := Chars(mode, s) + [34] + r;
    if s == [] {
      assert t == [34] + r && t[1..] == r;
    } else {
      var more := Chars(mode, s[1..]) + [34] + r;
      assert t == CharBytes(mode, s[0]) + more;
      assert s[0] in s && forall c :: c in s[1..] ==> c in s;
      CharBack(mode, s[0], more);
      StringBack(mode, s[1..], r);
      assert s == [s[0]] + s[1..];
    }
  }

  lemma {:induction false} QuoteBack(mode: Mode, s: Text, r: seq<Byte>)
    requires Encodable(s)
    ensures Starts(Quote(mode, s) + r, "\"") && ParseString((Quote(mode, s) + r)[1..]) == Parsed(s, r)
  {
    hide ParseString, Chars;
    assert Quote(mode, s) + r == [34] + (Chars(mode, s) + [34] + r);
    StringBack(mode, s, r);
  }

  // ---------------------------------------------------------------------------------------
  // Values are read back
  // ---------------------------------------------------------------------------------------

  lemma {:induction false} NumberBack(literal: seq<Byte>, r: seq<Byte>)
    requires (forall b :: b in literal ==> !Delimiter(b)) && Delimited(r)
    ensures NumberRun(literal + r) == |literal|
  {
    if literal == [] {
      assert literal + r == r;
    } else {
      assert literal[0] in literal && forall b :: b in literal[1..] ==> b in literal;
      assert (literal + r)[1..] == literal[1..] + r;
      NumberBack(literal[1..], r);
    }
  }

  lemma {:induction false} ValueStart(mode: Mode, v: Value)
    requires WellFormed(v)
    ensures Serialize(mode, v) != [] && !Delimiter(Serialize(mode, v)[0])
  {
    hide Chars, Join, Sort, Pieces, SerializeAll;
    if v.Num? { assert v.literal[0] in v.literal; }
  }

  /** Which word a text starts with shows in its first byte, and that of brackets in the second. */
  lemma {:induction false} Leads(t: seq<Byte>)
    ensures Starts(t, "null") ==> t[0] == 110
    ensures Starts(t, "true") ==> t[0] == 116
    ensures Starts(t, "false") ==> t[0] == 102
    ensures Starts(t, "\"") <==> t != [] && t[0] == 34
    ensures Starts(t, "[") <==> t != [] && t[0] == 91
    ensures Starts(t, "{") <==> t != [] && t[0] == 123
    ensures Starts(t, "[]") <==> |t| >= 2 && t[0] == 91 && t[1] == 93
    ensures Starts(t, "{}") <==> |t| >= 2 && t[0] == 123 && t[1] == 125
    ensures Starts(t, ",") <==> t != [] && t[0] == 44
    ensures Starts(t, ":") <==> t != [] && t[0] == 58
    ensures Starts(t, "]") <==> t != [] && t[0] == 93
    ensures Starts(t, "}") <==> t != [] && t[0] == 125
  {
    assert "null"[0] == 'n' && "true"[0] == 't' && "false"[0] == 'f';
  }

  /** Sorting pieces is sorting fields. */
  lemma {:induction false} InsertPieces(mode: Mode, f: Field, fields: seq<Field>)
    ensures Insert(PieceLess, PieceOf(mode, f), Pieces(mode, fields)) == Pieces(mode, Insert(FieldLess, f, fields))
  {
    hide Less, PieceOf, Pieces;
    PieceKeys(mode, f);
    PiecesCons(mode, f, fields);
    if fields == [] {
      NoPieces(mode);
    } else {
      PieceKeys(mode, fields[0]);
      PiecesCons(mode, fields[0], fields[1..]);
      PiecesCons(mode, fields[0], Insert(FieldLess, f, fields[1..]));
      assert fields == [fields[0]] + fields[1..];
      InsertPieces(mode, f, fields[1..]);
    }
  }

  lemma {:induction false} NoPieces(mode: Mode)
    ensures Pieces(mode, []) == []
  {}

  lemma {:induction false} PiecesCons(mode: Mode, f: Field, fields: seq<Field>)
    ensures Pieces(mode, [f] + fields) == [PieceOf(mode, f)] + Pieces(mode, fields)
  {
    hide PieceOf;
    assert ([f] + fields)[1..] == fields;
  }

  lemma {:induction false} PieceKeys(mode: Mode, f: Field)
    ensures PieceOf(mode, f).key == f.key
  {}

  lemma {:induction false} SortPieces(mode: Mode, fields: seq<Field>)
    ensures Sort(PieceLess, Pieces(mode, fields)) == Pieces(mode, Sort(FieldLess, fields))
  {
    hide Insert, PieceOf;
    if fields != [] {
      SortPieces(mode, fields[1..]);
      InsertPieces(mode, fields[0], Sort(FieldLess, fields[1..]));
    }
  }

  lemma {:induction false} InsertInOrder(f: Field, fields: seq<Field>)
    ensures FieldsInOrder(Insert(FieldLess, f, fields))
         == Insert(FieldLess, Field(f.key, InOrder(f.value)), FieldsInOrder(fields))
  {
    hide Less, InOrder;
    if fields != [] && FieldLess(fields[0], f) { InsertInOrder(f, fields[1..]); }
  }

  lemma {:induction false} SortInOrder(fields: seq<Field>)
    ensures FieldsInOrder(Sort(FieldLess, fields)) == Sort(FieldLess, FieldsInOrder(fields))
  {
    hide Insert, InOrder;
    if fields != [] {
      SortInOrder(fields[1..]);
      InsertInOrder(fields[0], Sort(FieldLess, fields[1..]));
    }
  }

  /** Main theorem: what was serialised is read back, with the fields of each object in key order. */
  lemma {:induction false} ValueBack(mode: Mode, v: Value, r: seq<Byte>)
    requires WellFormed(v) && EncodableValue(v) && Delimited(r)
    ensures ParseValue(Serialize(mode, v) + r) == Parsed(InOrder(v), r)
    decreases v, 1
  {
    hide Serialize, ParseValue;
    match v
    case Null => NullBack(mode, r);
    case Bool(b) => if b { TrueBack(mode, r); } else { FalseBack(mode, r); }
    case Num(literal) => NumBack(mode, literal, r);
    case Str(s) => TextBack(mode, s, r);
    case Arr(items) => ArrayBack(mode, items, r);
    case Obj(fields) => ObjectBack(mode, fields, r);
  }

  /** A text that starts with a word, after its bytes. */
  lemma {:induction false} WordStarts(word: string, bytes: seq<Byte>, r: seq<Byte>)
    requires |bytes| == |word| && forall i :: 0 <= i < |word| ==> bytes[i] == word[i] as nat
    ensures Starts(bytes + r, word) && (bytes + r)[|word|..] == r
  {}

  lemma {:induction false} NullBack(mode: Mode, r: seq<Byte>)
    ensures ParseValue(Serialize(mode, Null) + r) == Parsed(Null, r)
  {
    hide ParseString, ParseItems, ParseFields, Starts;
    WordStarts("null", [110, 117, 108, 108], r);
  }

  lemma {:induction false} TrueBack(mode: Mode, r: seq<Byte>)
    ensures ParseValue(Serialize(mode, Bool(true)) + r) == Parsed(Bool(true), r)
  {
    hide ParseString, ParseItems, ParseFields, Starts;
    Leads([116, 114, 117, 101] + r);
    WordStarts("true", [116, 114, 117, 101], r);
  }

  lemma {:induction false} FalseBack(mode: Mode, r: seq<Byte>)
    ensures ParseValue(Serialize(mode, Bool(false)) + r) == Parsed(Bool(false), r)
  {
    hide ParseString, ParseItems, ParseFields, Starts;
    Leads([102, 97, 108, 115, 101] + r);
    WordStarts("false", [102, 97, 108, 115, 101], r);
  }

  lemma {:induction false} NumBack(mode: Mode, literal: seq<Byte>, r: seq<Byte>)
    requires NumberText(literal) && Delimited(r)
    ensures ParseValue(Serialize(mode, Num(literal)) + r) == Parsed(Num(literal), r)
  {
    hide ParseString, ParseItems, ParseFields, Starts;
    var t := literal + r;
    Leads(t);
    NumberBack(literal, r);
    assert t[0] == literal[0] && t[..|literal|] == literal && t[|literal|..] == r;
  }

  lemma {:induction false} TextBack(mode: Mode, s: Text, r: seq<Byte>)
    requires Encodable(s)
    ensures ParseValue(Serialize(mode, Str(s)) + r) == Parsed(Str(s), r)
  {
    hide ParseString, ParseItems, ParseFields, Starts, Quote;
    Leads(Quote(mode, s) + r);
    QuoteBack(mode, s, r);
  }

  lemma {:induction false} ArrayBack(mode: Mode, items: seq<Value>, r: seq<Byte>)
    requires forall i :: 0 <= i < |items| ==> WellFormed(items[i]) && EncodableValue(items[i])
    ensures ParseValue(Serialize(mode, Arr(items)) + r) == Parsed(Arr(ItemsInOrder(items)), r)
    decreases items, 1
  {
    hide ParseItems, ParseFields, ParseString, WellFormed, EncodableValue, Serialize;
    var parts := SerializeAll(mode, items);
    var t := Serialize(mode, Arr(items)) + r;
    ArrayText(mode, items);
    Leads(t);
    if items == [] {
      EmptyJoin();
      assert t == [91, 93] + r && t[2..] == r;
    } else {
      assert t == [91] + (Join(parts) + [93] + r) && t[1..] == Join(parts) + [93] + r;
      JoinTail(parts, 93, r);
      ValueStart(mode, items[0]);
      ItemsBack(mode, items, r);
    }
  }

  lemma {:induction false} ArrayText(mode: Mode, items: seq<Value>)
    ensures Serialize(mode, Arr(items)) == [91] + Join(SerializeAll(mode, items)) + [93]
  {}

  lemma {:induction false} ItemsBack(mode: Mode, items: seq<Value>, r: seq<Byte>)
    requires items != [] && forall i :: 0 <= i < |items| ==> WellFormed(items[i]) && EncodableValue(items[i])
    ensures ParseItems(Join(SerializeAll(mode, items)) + [93] + r) == Parsed(ItemsInOrder(items), r)
    decreases items, 0
  {
    hide ParseValue, WellFormed, EncodableValue, Serialize, Join, InOrder;
    var parts := SerializeAll(mode, items);
    var tail := Tail(parts, 93, r);
    JoinTail(parts, 93, r);
    TailDelimited(parts, 93, r);
    ValueBack(mode, items[0], tail);
    Leads(tail);
    assert ParseValue(Join(parts) + [93] + r) == Parsed(InOrder(items[0]), tail);
    if |items| == 1 {
      assert tail == [93] + r && tail[1..] == r;
      assert ItemsInOrder(items) == [InOrder(items[0])];
      assert ParseItems(Join(parts) + [93] + r) == Parsed([InOrder(items[0])], tail[1..]);
    } else {
      assert tail[1..] == Join(parts[1..]) + [93] + r;
      ItemsBack(mode, items[1..], r);
    }
  }

  lemma {:induction false} ObjectBack(mode: Mode, fields: seq<Field>, r: seq<Byte>)
    requires WellFormedFields(fields) && EncodableFields(fields)
    ensures ParseValue(Serialize(mode, Obj(fields)) + r) == Parsed(Obj(Sort(FieldLess, FieldsInOrder(fields))), r)
    decreases fields, 2
  {
    hide ParseItems, ParseFields, ParseString, WellFormedFields, EncodableFields, Serialize, Sort, FieldsInOrder, Pieces;
    var sorted := Sort(FieldLess, fields);
    var parts := Bodies(Pieces(mode, sorted));
    var t := Serialize(mode, Obj(fields)) + r;
    ObjectText(mode, fields);
    Leads(t);
    SortInOrder(fields);
    SameMembers(sorted, fields);
    if fields == [] {
      EmptyJoin();
      assert t == [123, 125] + r && t[2..] == r;
      assert FieldsInOrder(sorted) == [];
    } else {
      assert t == [123] + (Join(parts) + [125] + r) && t[1..] == Join(parts) + [125] + r;
      FieldStart(mode, sorted, r);
      FieldsBack(mode, fields, sorted, r);
    }
  }

  lemma {:induction false} ObjectText(mode: Mode, fields: seq<Field>)
    ensures Serialize(mode, Obj(fields)) == [123] + Join(Bodies(Pieces(mode, Sort(FieldLess, fields)))) + [125]
  {
    SortPieces(mode, fields);
  }

  lemma {:induction false} FieldStart(mode: Mode, fields: seq<Field>, r: seq<Byte>)
    requires fields != []
    ensures (Join(Bodies(Pieces(mode, fields))) + [125] + r)[0] == 34
  {
    hide Serialize, Join;
    JoinTail(Bodies(Pieces(mode, fields)), 125, r);
  }

  /** One step of reading fields. */
  lemma {:induction false} FieldRead(t: seq<Byte>, key: Text, after: seq<Byte>, v: Value, tail: seq<Byte>)
    requires Starts(t, "\"") && ParseString(t[1..]) == Parsed(key, after)
    requires Starts(after, ":") && ParseValue(after[1..]) == Parsed(v, tail)
    ensures Starts(tail, "}") ==> ParseFields(t) == Parsed([Field(key, v)], tail[1..])
    ensures Starts(tail, ",") && ParseFields(tail[1..]).Parsed? ==>
              ParseFields(t) == Parsed([Field(key, v)] + ParseFields(tail[1..]).value, ParseFields(tail[1..]).rest)
  {
    hide ParseString, ParseValue, Starts;
    Leads(tail);
  }

  lemma {:induction false} FieldText(mode: Mode, fields: seq<Field>, tail: seq<Byte>)
    requires fields != []
    ensures Bodies(Pieces(mode, fields))[0] + tail
         == Quote(mode, fields[0].key) + ([58] + (Serialize(mode, fields[0].value) + tail))
  {
    hide Serialize, Quote;
  }

  lemma {:induction false} FieldsBack(mode: Mode, all: seq<Field>, fields: seq<Field>, r: seq<Byte>)
    requires WellFormedFields(all) && EncodableFields(all)
    requires fields != [] && forall f :: f in fields ==> f in all
    ensures ParseFields(Join(Bodies(Pieces(mode, fields))) + [125] + r) == Parsed(FieldsInOrder(fields), r)
    decreases all, 1, |fields|
  {
    hide ParseValue, ParseString, ParseFields, Starts, WellFormed, EncodableValue, Serialize, Join, InOrder, Quote;
    var f := fields[0];
    var parts := Bodies(Pieces(mode, fields));
    var tail := Tail(parts, 125, r);
    JoinTail(parts, 125, r);
    TailDelimited(parts, 125, r);
    assert f in fields;
    var i :| 0 <= i < |all| && all[i] == f;
    var text := Serialize(mode, f.value);
    FieldText(mode, fields, tail);
    QuoteBack(mode, f.key, [58] + (text + tail));
    assert ([58] + (text + tail))[1..] == text + tail;
    Leads([58] + (text + tail));
    ValueBack(mode, f.value, tail);
    Leads(tail);
    FieldRead(parts[0] + tail, f.key, [58] + (text + tail), InOrder(f.value), tail);
    if |fields| == 1 {
      assert tail == [125] + r && tail[1..] == r;
      assert FieldsInOrder(fields) == [Field(f.key, InOrder(f.value))];
    } else {
      assert Bodies(Pieces(mode, fields))[1..] == Bodies(Pieces(mode, fields[1..]));
      assert tail[1..] == Join(Bodies(Pieces(mode, fields[1..]))) + [125] + r;
      FieldsBack(mode, all, fields[1..], r);
    }
  }
}
