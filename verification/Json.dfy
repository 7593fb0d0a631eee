/** JSON values and the compact serialisation with sorted keys.

    The escapes are those of section 7 of RFC 8259 as Python's encoder writes them: short forms
    where they exist and lower-case `\uXXXX` otherwise. `Utf8` writes other characters as UTF-8,
    `Ascii` escapes them, with surrogate pairs above U+FFFF. Objects are Python dictionaries:
    sequences of fields with distinct keys, in insertion order.
  */
module Json {
  import opened Order

  type Byte = b: nat | b < 256

  datatype Value =
    | Null
    | Bool(b: bool)
    | Num(literal: seq<Byte>)
    | Str(s: Text)
    | Arr(items: seq<Value>)
    | Obj(fields: seq<Field>)

  datatype Field = Field(key: Text, value: Value)

  datatype Mode = Utf8 | Ascii

  // ---------------------------------------------------------------------------------------
  // Characters
  // ---------------------------------------------------------------------------------------

  predicate IsSurrogate(c: CodePoint) {
    0xD800 <= c < 0xE000
  }

  function HexDigit(n: nat): Byte
    requires n < 16
  {
    if n < 10 then 48 + n else 87 + n
  }

  /** `\uXXXX` */
  function UnicodeEscape(n: nat): (bytes: seq<Byte>)
    requires n < 0x1_0000
    ensures |bytes| == 6
  {
    [92, 117, HexDigit(n / 4096), HexDigit(n / 256 % 16), HexDigit(n / 16 % 16), HexDigit(n % 16)]
  }

  function Utf8Bytes(c: CodePoint): (bytes: seq<Byte>)
    ensures |bytes| == if c < 0x80 then 1 else if c < 0x800 then 2 else if c < 0x1_0000 then 3 else 4
  {
    if c < 0x80 then [c]
    else if c < 0x800 then [0xC0 + c / 64, 0x80 + c % 64]
    else if c < 0x1_0000 then [0xE0 + c / 4096, 0x80 + c / 64 % 64, 0x80 + c % 64]
    else [0xF0 + c / 262144, 0x80 + c / 4096 % 64, 0x80 + c / 64 % 64, 0x80 + c % 64]
  }

  function ShortEscape(c: CodePoint): seq<Byte> {
    if c == 34 then [92, 34]
    else if c == 92 then [92, 92]
    else if c == 8 then [92, 98]
    else if c == 9 then [92, 116]
    else if c == 10 then [92, 110]
    else if c == 12 then [92, 102]
    else if c == 13 then [92, 114]
    else []
  }

  function AsciiBytes(c: CodePoint): (bytes: seq<Byte>)
    ensures 1 <= |bytes| <= 12
  {
    if 32 <= c < 127 then [c]
    else if c < 0x1_0000 then UnicodeEscape(c)
    else UnicodeEscape(0xD800 + (c - 0x1_0000) / 1024) + UnicodeEscape(0xDC00 + (c - 0x1_0000) % 1024)
  }

  function CharBytes(mode: Mode, c: CodePoint): (bytes: seq<Byte>)
    ensures 1 <= |bytes| <= 12
    ensures mode.Utf8? ==> |bytes| <= 6
  {
    if ShortEscape(c) != [] then ShortEscape(c)
    else if mode.Ascii? then AsciiBytes(c)
    else if c < 32 then UnicodeEscape(c)
    else Utf8Bytes(c)
  }

  function Chars(mode: Mode, s: Text): seq<Byte> {
    if s == [] then [] else CharBytes(mode, s[0]) + Chars(mode, s[1..])
  }

  function Quote(mode: Mode, s: Text): seq<Byte> {
    [34] + Chars(mode, s) + [34]
  }

  // ---------------------------------------------------------------------------------------
  // Values
  // ---------------------------------------------------------------------------------------

  /** A field's key with the bytes of the whole field. */
  datatype Piece = Piece(key: Text, bytes: seq<Byte>)

  predicate PieceLess(a: Piece, b: Piece) {
    Less(a.key, b.key)
  }

  function Join(parts: seq<seq<Byte>>): seq<Byte> {
    if parts == [] then []
    else if |parts| == 1 then parts[0]
    else parts[0] + [44] + Join(parts[1..])
  }

  function Bodies(pieces: seq<Piece>): seq<seq<Byte>> {
    seq(|pieces|, i requires 0 <= i < |pieces| => pieces[i].bytes)
  }

  function Serialize(mode: Mode, v: Value): seq<Byte>
    decreases v, 1
  {
    match v
    case Null => [110, 117, 108, 108]
    case Bool(b) => if b then [116, 114, 117, 101] else [102, 97, 108, 115, 101]
    case Num(literal) => literal
    case Str(s) => Quote(mode, s)
    case Arr(items) => [91] + Join(SerializeAll(mode, items)) + [93]
    case Obj(fields) => [123] + Join(Bodies(Sort(PieceLess, Pieces(mode, fields)))) + [125]
  }

  function SerializeAll(mode: Mode, items: seq<Value>): (parts: seq<seq<Byte>>)
    ensures |parts| == |items|
    decreases items, 0
  {
    if items == [] then [] else [Serialize(mode, items[0])] + SerializeAll(mode, items[1..])
  }

  function Pieces(mode: Mode, fields: seq<Field>): (pieces: seq<Piece>)
    ensures |pieces| == |fields|
    decreases fields, 0
  {
    if fields == [] then [] else [PieceOf(mode, fields[0])] + Pieces(mode, fields[1..])
  }

  function PieceOf(mode: Mode, f: Field): Piece
    decreases f, 0
  {
    Piece(f.key, Quote(mode, f.key) + [58] + Serialize(mode, f.value))
  }

  /** UTF-8 encoding fails on a lone surrogate; escaping never fails. */
  predicate Encodable(s: Text) {
    forall c :: c in s ==> !IsSurrogate(c)
  }

  predicate EncodableValue(v: Value)
    decreases v, 1
  {
    match v
    case Null => true
    case Bool(_) => true
    case Num(_) => true
    case Str(s) => Encodable(s)
    case Arr(items) => forall i :: 0 <= i < |items| ==> EncodableValue(items[i])
    case Obj(fields) => EncodableFields(fields)
  }

  predicate EncodableFields(fields: seq<Field>)
    decreases fields, 0
  {
    forall i :: 0 <= i < |fields| ==> Encodable(fields[i].key) && EncodableValue(fields[i].value)
  }

  ghost predicate DistinctKeys(fields: seq<Field>) {
    forall i, j :: 0 <= i < j < |fields| ==> fields[i].key != fields[j].key
  }

  // ---------------------------------------------------------------------------------------
  // Lengths
  // ---------------------------------------------------------------------------------------

  function Size(mode: Mode, v: Value): nat {
    |Serialize(mode, v)|
  }

  /** The bytes one field contributes, without commas. */
  function FieldSize(mode: Mode, f: Field): nat {
    |Quote(mode, f.key)| + 1 + Size(mode, f.value)
  }

  function FieldSizes(mode: Mode, fields: seq<Field>): nat {
    if fields == [] then 0 else FieldSize(mode, fields[0]) + FieldSizes(mode, fields[1..])
  }

  function ItemSizes(mode: Mode, items: seq<Value>): nat {
    if items == [] then 0 else Size(mode, items[0]) + ItemSizes(mode, items[1..])
  }

  /** Separators between `n` members. */
  function Commas(n: nat): nat {
    if n == 0 then 0 else n - 1
  }

  function Total(parts: seq<seq<Byte>>): nat {
    if parts == [] then 0 else |parts[0]| + Total(parts[1..])
  }

  lemma {:induction false} JoinLength(parts: seq<seq<Byte>>)
    ensures |Join(parts)| == Total(parts) + Commas(|parts|)
  {
    if |parts| > 1 { JoinLength(parts[1..]); }
  }

  lemma {:induction false} InsertTotal(p: Piece, s: seq<Piece>)
    ensures Total(Bodies(Insert(PieceLess, p, s))) == |p.bytes| + Total(Bodies(s))
  {
    if s == [] || !PieceLess(s[0], p) {
      assert Bodies([p] + s)[1..] == Bodies(s);
    } else {
      InsertTotal(p, s[1..]);
      assert Bodies(s)[1..] == Bodies(s[1..]);
      var r := Insert(PieceLess, p, s[1..]);
      assert Bodies([s[0]] + r)[1..] == Bodies(r);
    }
  }

  /** Sorting keys does not change the length. */
  lemma {:induction false} SortTotal(s: seq<Piece>)
    ensures Total(Bodies(Sort(PieceLess, s))) == Total(Bodies(s))
  {
    if s != [] {
      SortTotal(s[1..]);
      InsertTotal(s[0], Sort(PieceLess, s[1..]));
      assert Bodies(s)[1..] == Bodies(s[1..]);
    }
  }

  lemma {:induction false} PiecesTotal(mode: Mode, fields: seq<Field>)
    ensures Total(Bodies(Pieces(mode, fields))) == FieldSizes(mode, fields)
  {
    if fields != [] {
      PiecesTotal(mode, fields[1..]);
      assert Bodies(Pieces(mode, fields))[1..] == Bodies(Pieces(mode, fields[1..]));
    }
  }

  /** The length of an object is the sum of its fields, the commas between them and two braces. */
  lemma {:induction false} ObjectSize(mode: Mode, fields: seq<Field>)
    ensures Size(mode, Obj(fields)) == 2 + FieldSizes(mode, fields) + Commas(|fields|)
  {
    var sorted := Sort(PieceLess, Pieces(mode, fields));
    JoinLength(Bodies(sorted));
    SortTotal(Pieces(mode, fields));
    PiecesTotal(mode, fields);
  }

  lemma {:induction false} SerializedTotal(mode: Mode, items: seq<Value>)
    ensures Total(SerializeAll(mode, items)) == ItemSizes(mode, items)
  {
    if items != [] { SerializedTotal(mode, items[1..]); }
  }

  lemma {:induction false} ArraySize(mode: Mode, items: seq<Value>)
    ensures Size(mode, Arr(items)) == 2 + ItemSizes(mode, items) + Commas(|items|)
  {
    JoinLength(SerializeAll(mode, items));
    SerializedTotal(mode, items);
  }

  /** A field is measured by serialising it alone and taking off the braces. */
  lemma {:induction false} FieldAlone(mode: Mode, f: Field)
    ensures Size(mode, Obj([f])) - 2 == FieldSize(mode, f)
  {
    ObjectSize(mode, [f]);
    assert FieldSizes(mode, []) == 0;
    assert FieldSizes(mode, [f]) == FieldSize(mode, f) + FieldSizes(mode, [f][1..]);
  }

  lemma {:induction false} FieldSizesSplit(mode: Mode, a: seq<Field>, b: seq<Field>)
    ensures FieldSizes(mode, a + b) == FieldSizes(mode, a) + FieldSizes(mode, b)
  {
    hide FieldSize;
    if a == [] {
      assert a + b == b;
    } else {
      FieldSizesSplit(mode, a[1..], b);
      assert (a + b)[1..] == a[1..] + b;
    }
  }

  lemma {:induction false} ItemSizesSplit(mode: Mode, a: seq<Value>, b: seq<Value>)
    ensures ItemSizes(mode, a + b) == ItemSizes(mode, a) + ItemSizes(mode, b)
  {
    hide Size;
    if a == [] {
      assert a + b == b;
    } else {
      ItemSizesSplit(mode, a[1..], b);
      assert (a + b)[1..] == a[1..] + b;
    }
  }

  lemma {:induction false} CharsBound(mode: Mode, s: Text)
    ensures |s| <= |Chars(mode, s)| <= 12 * |s|
    ensures mode.Utf8? ==> |Chars(mode, s)| <= 6 * |s|
  {
    if s != [] { CharsBound(mode, s[1..]); }
  }

  lemma {:induction false} PlainChars(mode: Mode, s: Text)
    requires forall c :: c in s ==> 32 <= c < 127 && c != 34 && c != 92
    ensures |Chars(mode, s)| == |s|
  {
    if s != [] {
      assert s[0] in s && forall c :: c in s[1..] ==> c in s;
      PlainChars(mode, s[1..]);
    }
  }

  // ---------------------------------------------------------------------------------------
  // Sorted fields
  // ---------------------------------------------------------------------------------------

  lemma {:induction false} PiecesMembers(mode: Mode, fields: seq<Field>)
    ensures forall i :: 0 <= i < |fields| ==> Pieces(mode, fields)[i] == PieceOf(mode, fields[i])
    ensures forall i :: 0 <= i < |fields| ==> Pieces(mode, fields)[i].key == fields[i].key
  {
    if fields != [] { PiecesMembers(mode, fields[1..]); }
  }

  lemma {:induction false} PieceOrder()
    ensures StrictOrder(PieceLess)
  {
    LessIsStrictTotal();
  }

  /** The pieces of an object, in key order. */
  lemma {:induction false} PiecesSorted(mode: Mode, fields: seq<Field>)
    requires DistinctKeys(fields)
    ensures SortedBy(PieceLess, Sort(PieceLess, Pieces(mode, fields)))
    ensures forall p :: p in Sort(PieceLess, Pieces(mode, fields)) <==>
              exists f :: f in fields && p == PieceOf(mode, f)
  {
    hide Serialize, Quote, PieceOf, Pieces;
    LessIsStrictTotal();
    PieceOrder();
    PiecesMembers(mode, fields);
    var pieces := Pieces(mode, fields);
    forall i, j | 0 <= i < j < |pieces| ensures PieceLess(pieces[i], pieces[j]) || PieceLess(pieces[j], pieces[i]) {
      assert pieces[i].key != pieces[j].key;
    }
    SortSorts(PieceLess, pieces);
    forall p ensures p in pieces <==> exists f :: f in fields && p == PieceOf(mode, f) {
      if p in pieces {
        var i :| 0 <= i < |pieces| && pieces[i] == p;
        assert fields[i] in fields;
      }
      if exists f :: f in fields && p == PieceOf(mode, f) {
        var f :| f in fields && p == PieceOf(mode, f);
        var i :| 0 <= i < |fields| && fields[i] == f;
        assert pieces[i] == p;
      }
    }
  }

  /** The bytes do not depend on the order in which a dictionary was filled. */
  lemma {:induction false} CanonicalBytes(mode: Mode, a: seq<Field>, b: seq<Field>)
    requires DistinctKeys(a) && DistinctKeys(b)
    requires forall f :: f in a <==> f in b
    ensures Serialize(mode, Obj(a)) == Serialize(mode, Obj(b))
  {
    hide Pieces, PieceOf;
    PiecesSorted(mode, a);
    PiecesSorted(mode, b);
    PieceOrder();
    SortedUnique(PieceLess, Sort(PieceLess, Pieces(mode, a)), Sort(PieceLess, Pieces(mode, b)));
  }
}
