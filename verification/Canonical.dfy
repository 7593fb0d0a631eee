/** The canonical bytes identify a value: they are equal exactly for equal JSON values, where the
    order in which a dictionary was filled does not count.
  */
module Canonical {
  import opened Order
  import opened Json

  // ---------------------------------------------------------------------------------------
  // Equality of values
  // ---------------------------------------------------------------------------------------

  ghost predicate Same(v: Value, w: Value)
    decreases v, 1
  {
    match v
    case Arr(items) => w.Arr? && |items| == |w.items| && forall i :: 0 <= i < |items| ==> Same(items[i], w.items[i])
    case Obj(fields) => w.Obj? && SameFields(fields, w.fields)
    case _ => v == w
  }

  /** Each field of one dictionary has its equal in the other. */
  ghost predicate SameFields(a: seq<Field>, b: seq<Field>)
    decreases a, 1
  {
    (forall i :: 0 <= i < |a| ==> HasPartner(a[i], b)) && forall j :: 0 <= j < |b| ==> IsPartner(a, b[j])
  }

  ghost predicate Partners(f: Field, g: Field)
    decreases f, 0
  {
    f.key == g.key && Same(f.value, g.value)
  }

  ghost predicate HasPartner(f: Field, b: seq<Field>)
    decreases f, 1
  {
    exists j :: 0 <= j < |b| && Partners(f, b[j])
  }

  ghost predicate IsPartner(a: seq<Field>, g: Field)
    decreases a, 0
  {
    exists i :: 0 <= i < |a| && Partners(a[i], g)
  }

  predicate Delimiter(b: Byte) {
    b == 44 || b == 93 || b == 125
  }

  /** A number's text: it cannot be taken for another kind of value and holds no delimiter. */
  predicate NumberText(literal: seq<Byte>) {
    literal != [] && literal[0] !in [34, 91, 102, 110, 116, 123] && forall b :: b in literal ==> !Delimiter(b)
  }

  /** Dictionaries have distinct keys, and numbers look like numbers. */
  ghost predicate WellFormed(v: Value)
    decreases v, 1
  {
    match v
    case Num(literal) => NumberText(literal)
    case Arr(items) => forall i :: 0 <= i < |items| ==> WellFormed(items[i])
    case Obj(fields) => WellFormedFields(fields)
    case _ => true
  }

  ghost predicate WellFormedFields(fields: seq<Field>)
    decreases fields, 0
  {
    DistinctKeys(fields) && forall i :: 0 <= i < |fields| ==> WellFormed(fields[i].value)
  }

  // ---------------------------------------------------------------------------------------
  // Equal values have equal bytes
  // ---------------------------------------------------------------------------------------

  lemma {:induction false} SameBytes(v: Value, w: Value)
    requires WellFormed(v) && WellFormed(w) && Same(v, w)
    ensures Serialize(Utf8, v) == Serialize(Utf8, w)
    decreases v, 1
  {
    match v
    case Arr(items) =>
      forall i | 0 <= i < |items| ensures Serialize(Utf8, items[i]) == Serialize(Utf8, w.items[i]) {
        SameBytes(items[i], w.items[i]);
      }
      SamePartsAll(items, w.items);
    case Obj(fields) => SameFieldBytes(fields, w.fields);
    case _ =>
  }

  lemma {:induction false} SamePartsAll(a: seq<Value>, b: seq<Value>)
    requires |a| == |b| && forall i :: 0 <= i < |a| ==> Serialize(Utf8, a[i]) == Serialize(Utf8, b[i])
    ensures SerializeAll(Utf8, a) == SerializeAll(Utf8, b)
  {
    if a != [] { SamePartsAll(a[1..], b[1..]); }
  }

  lemma {:induction false} SameFieldBytes(a: seq<Field>, b: seq<Field>)
    requires WellFormedFields(a) && WellFormedFields(b) && SameFields(a, b)
    ensures Serialize(Utf8, Obj(a)) == Serialize(Utf8, Obj(b))
    decreases a, 0
  {
    hide PieceOf, Same, Serialize, WellFormed, Stands;
    forall i | 0 <= i < |a| ensures Stands(PieceOf(Utf8, a[i]), b) {
      assert HasPartner(a[i], b);
      var j :| 0 <= j < |b| && Partners(a[i], b[j]);
      SameBytes(a[i].value, b[j].value);
      SamePiece(a[i], b[j]);
      StandsMember(b, j);
    }
    forall j | 0 <= j < |b| ensures Stands(PieceOf(Utf8, b[j]), a) {
      assert IsPartner(a, b[j]);
      var i :| 0 <= i < |a| && Partners(a[i], b[j]);
      SameBytes(a[i].value, b[j].value);
      SamePiece(a[i], b[j]);
      StandsMember(a, i);
    }
    SamePieces(a, b);
  }

  lemma {:induction false} SamePiece(f: Field, g: Field)
    requires f.key == g.key && Serialize(Utf8, f.value) == Serialize(Utf8, g.value)
    ensures PieceOf(Utf8, f) == PieceOf(Utf8, g)
  {}

  /** The piece stands for one of the fields. */
  ghost predicate Stands(p: Piece, a: seq<Field>) {
    exists f :: f in a && p == PieceOf(Utf8, f)
  }

  lemma {:induction false} SamePieces(a: seq<Field>, b: seq<Field>)
    requires DistinctKeys(a) && DistinctKeys(b)
    requires forall i :: 0 <= i < |a| ==> Stands(PieceOf(Utf8, a[i]), b)
    requires forall j :: 0 <= j < |b| ==> Stands(PieceOf(Utf8, b[j]), a)
    ensures Serialize(Utf8, Obj(a)) == Serialize(Utf8, Obj(b))
  {
    hide PieceOf, Pieces;
    PiecesSorted(Utf8, a);
    PiecesSorted(Utf8, b);
    PieceOrder();
    forall p ensures Stands(p, a) <==> Stands(p, b) {
      if Stands(p, a) { StandsFor(p, a); }
      if Stands(p, b) { StandsFor(p, b); }
    }
    SortedUnique(PieceLess, Sort(PieceLess, Pieces(Utf8, a)), Sort(PieceLess, Pieces(Utf8, b)));
  }

  lemma {:induction false} StandsMember(a: seq<Field>, i: nat)
    requires i < |a|
    ensures Stands(PieceOf(Utf8, a[i]), a)
  {
    hide PieceOf;
    assert a[i] in a;
  }

  lemma {:induction false} StandsFor(p: Piece, a: seq<Field>)
    requires Stands(p, a)
    ensures exists i :: 0 <= i < |a| && p == PieceOf(Utf8, a[i])
  {
    hide PieceOf;
    var f :| f in a && p == PieceOf(Utf8, f);
    var i :| 0 <= i < |a| && a[i] == f;
  }

  // ---------------------------------------------------------------------------------------
  // Strings can be read back
  // ---------------------------------------------------------------------------------------

  function HexValue(b: nat): nat {
    if b < 87 then if b < 48 then 0 else b - 48 else b - 87
  }

  function ShortValue(b: nat): nat {
    if b == 98 then 8 else if b == 116 then 9 else if b == 110 then 10 else if b == 102 then 12 else if b == 114 then 13 else b
  }

  /** The character at the start of the inside of a string literal. */
  function FirstChar(t: seq<nat>): nat {
    if |t| >= 6 && t[0] == 92 && t[1] == 117 then HexValue(t[4]) * 16 + HexValue(t[5])
    else if |t| >= 2 && t[0] == 92 then ShortValue(t[1])
    else if |t| >= 1 && t[0] < 0x80 then t[0]
    else if |t| >= 2 && 0xC0 <= t[0] < 0xE0 then (t[0] - 0xC0) * 64 + t[1] % 64
    else if |t| >= 3 && 0xE0 <= t[0] < 0xF0 then (t[0] - 0xE0) * 4096 + t[1] % 64 * 64 + t[2] % 64
    else if |t| >= 4 && 0xF0 <= t[0] then (t[0] - 0xF0) * 262144 + t[1] % 64 * 4096 + t[2] % 64 * 64 + t[3] % 64
    else 0
  }

  lemma {:induction false} Split64(c: CodePoint)
    ensures c == c / 64 * 64 + c % 64 && c / 64 == c / 4096 * 64 + c / 64 % 64 && c / 4096 == c / 262144 * 64 + c / 4096 % 64
    ensures (0x80 + c % 64) % 64 == c % 64 && (0x80 + c / 64 % 64) % 64 == c / 64 % 64
    ensures (0x80 + c / 4096 % 64) % 64 == c / 4096 % 64
  {}

  lemma {:induction false} Utf8Value(c: CodePoint, t: seq<nat>)
    requires c >= 32 && c != 92 && Utf8Bytes(c) <= t
    ensures FirstChar(t) == c
  {
    Split64(c);
    var bytes := Utf8Bytes(c);
    assert forall i :: 0 <= i < |bytes| ==> t[i] == bytes[i];
    assert t[0] != 92;
  }

  lemma {:induction false} EscapeValue(c: CodePoint, t: seq<nat>)
    requires (c < 32 || ShortEscape(c) != []) && CharBytes(Utf8, c) <= t
    ensures FirstChar(t) == c
  {
    var bytes := CharBytes(Utf8, c);
    assert forall i :: 0 <= i < |bytes| ==> t[i] == bytes[i];
  }

  lemma {:induction false} FirstCharReads(c: CodePoint, rest: seq<Byte>)
    ensures FirstChar(CharBytes(Utf8, c) + rest) == c
    ensures CharBytes(Utf8, c)[0] != 34
  {
    var t: seq<nat> := CharBytes(Utf8, c) + rest;
    if ShortEscape(c) == [] && c >= 32 {
      Utf8Value(c, t);
    } else {
      EscapeValue(c, t);
    }
  }

  /** A quoted string tells its characters and where it ends. */
  lemma {:induction false} CharsUnique(s: Text, t: Text, r: seq<Byte>, q: seq<Byte>)
    requires Chars(Utf8, s) + [34] + r == Chars(Utf8, t) + [34] + q
    ensures s == t && r == q
  {
    hide CharBytes, FirstChar;
    CharsStart(s, r);
    CharsStart(t, q);
    if s == [] {
      assert [] + [34] + r == [34] + r && [] + [34] + q == [34] + q;
      CancelPrefix([34], r, q);
    } else {
      CancelPrefix(CharBytes(Utf8, s[0]), Chars(Utf8, s[1..]) + [34] + r, Chars(Utf8, t[1..]) + [34] + q);
      CharsUnique(s[1..], t[1..], r, q);
      assert s == [s[0]] + s[1..] && t == [t[0]] + t[1..];
    }
  }

  lemma {:induction false} CharsStart(s: Text, r: seq<Byte>)
    ensures var all := Chars(Utf8, s) + [34] + r;
            && (s == [] <==> all[0] == 34)
            && (s != [] ==> FirstChar(all) == s[0] && all == CharBytes(Utf8, s[0]) + (Chars(Utf8, s[1..]) + [34] + r))
  {
    hide CharBytes, FirstChar;
    var all := Chars(Utf8, s) + [34] + r;
    if s != [] {
      FirstCharReads(s[0], Chars(Utf8, s[1..]) + [34] + r);
      assert all == CharBytes(Utf8, s[0]) + (Chars(Utf8, s[1..]) + [34] + r);
    }
  }

  lemma {:induction false} CancelPrefix<T>(p: seq<T>, a: seq<T>, b: seq<T>)
    requires p + a == p + b
    ensures a == b
  {
    assert (p + a)[|p|..] == a && (p + b)[|p|..] == b;
  }

  // ---------------------------------------------------------------------------------------
  // Equal bytes come from equal values
  // ---------------------------------------------------------------------------------------

  ghost predicate Delimited(r: seq<Byte>) {
    r == [] || Delimiter(r[0])
  }

  function NumberLength(t: seq<Byte>): nat {
    if t == [] || Delimiter(t[0]) then 0 else 1 + NumberLength(t[1..])
  }

  lemma {:induction false} NumberEnds(literal: seq<Byte>, r: seq<Byte>)
    requires (forall b :: b in literal ==> !Delimiter(b)) && Delimited(r)
    ensures NumberLength(literal + r) == |literal|
  {
    if literal == [] {
      assert literal + r == r;
    } else {
      assert literal[0] in literal && forall b :: b in literal[1..] ==> b in literal;
      assert (literal + r)[1..] == literal[1..] + r;
      NumberEnds(literal[1..], r);
    }
  }

  lemma {:induction false} NumberUnique(a: seq<Byte>, b: seq<Byte>, r: seq<Byte>, q: seq<Byte>)
    requires NumberText(a) && NumberText(b) && Delimited(r) && Delimited(q) && a + r == b + q
    ensures a == b && r == q
  {
    NumberEnds(a, r);
    NumberEnds(b, q);
    assert (a + r)[..|a|] == a && (b + q)[..|a|] == b;
    CancelPrefix(a, r, q);
  }

  /** The first byte of a value; it tells the kind. */
  function Head(v: Value): Byte
    requires v.Num? ==> v.literal != []
  {
    match v
    case Null => 110
    case Bool(b) => if b then 116 else 102
    case Num(literal) => literal[0]
    case Str(_) => 34
    case Arr(_) => 91
    case Obj(_) => 123
  }

  lemma {:induction false} HeadIsFirst(v: Value)
    requires v.Num? ==> v.literal != []
    ensures Serialize(Utf8, v) != [] && Serialize(Utf8, v)[0] == Head(v)
  {
    hide Chars, Join, Sort, Pieces, SerializeAll;
  }

  lemma {:induction false} FirstByte(v: Value, r: seq<Byte>)
    requires WellFormed(v)
    ensures var s := Serialize(Utf8, v) + r;
            && Serialize(Utf8, v) != [] && !Delimiter(s[0]) && (v.Num? ==> v.literal != []) && s[0] == Head(v)
            && (v.Null? <==> s[0] == 110) && (v.Bool? <==> s[0] in [102, 116]) && (v.Str? <==> s[0] == 34)
            && (v.Arr? <==> s[0] == 91) && (v.Obj? <==> s[0] == 123)
  {
    hide Serialize;
    HeadIsFirst(v);
    if v.Num? { assert v.literal[0] in v.literal; }
  }

  /** A serialised value tells what it is and where it ends. */
  lemma {:induction false} BytesUnique(v: Value, w: Value, r: seq<Byte>, q: seq<Byte>)
    requires WellFormed(v) && WellFormed(w) && Delimited(r) && Delimited(q)
    requires Serialize(Utf8, v) + r == Serialize(Utf8, w) + q
    ensures Same(v, w) && r == q
    decreases v, 2
  {
    hide Delimited, Quote, Pieces;
    FirstByte(v, r);
    FirstByte(w, q);
    match v
    case Null => CancelPrefix(Serialize(Utf8, v), r, q);
    case Bool(_) => assert v == w; CancelPrefix(Serialize(Utf8, v), r, q);
    case Num(literal) => NumberUnique(literal, w.literal, r, q);
    case Str(s) => QuoteUnique(s, w.s, r, q);
    case Arr(items) =>
      CancelFirst(91, Join(SerializeAll(Utf8, items)) + [93] + r, Join(SerializeAll(Utf8, w.items)) + [93] + q,
                  Serialize(Utf8, v) + r, Serialize(Utf8, w) + q);
      ItemsUnique(items, w.items, r, q);
    case Obj(fields) =>
      ObjectUnique(fields, w.fields, r, q);
  }

  lemma {:induction false} CancelFirst(b: Byte, x: seq<Byte>, y: seq<Byte>, s: seq<Byte>, t: seq<Byte>)
    requires s == [b] + x && t == [b] + y && s == t
    ensures x == y
  {
    CancelPrefix([b], x, y);
  }

  lemma {:induction false} QuoteUnique(s: Text, t: Text, r: seq<Byte>, q: seq<Byte>)
    requires Quote(Utf8, s) + r == Quote(Utf8, t) + q
    ensures s == t && r == q
  {
    hide Chars;
    assert Quote(Utf8, s) + r == [34] + (Chars(Utf8, s) + [34] + r);
    assert Quote(Utf8, t) + q == [34] + (Chars(Utf8, t) + [34] + q);
    CancelPrefix([34], Chars(Utf8, s) + [34] + r, Chars(Utf8, t) + [34] + q);
    CharsUnique(s, t, r, q);
  }

  /** What follows the first of several parts. */
  function Tail(parts: seq<seq<Byte>>, close: Byte, r: seq<Byte>): seq<Byte>
    requires parts != []
  {
    if |parts| == 1 then [close] + r else [44] + (Join(parts[1..]) + [close] + r)
  }

  lemma {:induction false} JoinTail(parts: seq<seq<Byte>>, close: Byte, r: seq<Byte>)
    requires parts != []
    ensures Join(parts) + [close] + r == parts[0] + Tail(parts, close, r)
  {
    if |parts| > 1 {
      assert Join(parts) + [close] + r == parts[0] + ([44] + (Join(parts[1..]) + [close] + r));
    }
  }

  /** Both lists go on, or both end. */
  lemma {:induction false} TailUnique(a: seq<seq<Byte>>, b: seq<seq<Byte>>, close: Byte, r: seq<Byte>, q: seq<Byte>)
    requires a != [] && b != [] && close != 44 && Tail(a, close, r) == Tail(b, close, q)
    ensures |a| == 1 <==> |b| == 1
    ensures |a| == 1 ==> r == q
    ensures |a| > 1 ==> Join(a[1..]) + [close] + r == Join(b[1..]) + [close] + q
  {
    hide Join;
    assert Tail(a, close, r)[1..] == if |a| == 1 then r else Join(a[1..]) + [close] + r;
    assert Tail(b, close, q)[1..] == if |b| == 1 then q else Join(b[1..]) + [close] + q;
  }

  lemma {:induction false} ItemsUnique(a: seq<Value>, b: seq<Value>, r: seq<Byte>, q: seq<Byte>)
    requires (forall i :: 0 <= i < |a| ==> WellFormed(a[i])) && forall i :: 0 <= i < |b| ==> WellFormed(b[i])
    requires Join(SerializeAll(Utf8, a)) + [93] + r == Join(SerializeAll(Utf8, b)) + [93] + q
    ensures |a| == |b| && (forall i :: 0 <= i < |a| ==> Same(a[i], b[i])) && r == q
    decreases a, 0
  {
    hide Serialize, WellFormed, Same, Join, Tail;
    var x, y := SerializeAll(Utf8, a), SerializeAll(Utf8, b);
    if a == [] || b == [] {
      EmptyJoin();
      if a != [] { FirstByte(a[0], Tail(x, 93, r)); JoinTail(x, 93, r); }
      if b != [] { FirstByte(b[0], Tail(y, 93, q)); JoinTail(y, 93, q); }
      assert [] + [93] + r == [93] + r && [] + [93] + q == [93] + q;
      CancelPrefix([93], r, q);
    } else {
      JoinTail(x, 93, r);
      JoinTail(y, 93, q);
      TailDelimited(x, 93, r);
      TailDelimited(y, 93, q);
      BytesUnique(a[0], b[0], Tail(x, 93, r), Tail(y, 93, q));
      TailUnique(x, y, 93, r, q);
      if |a| > 1 { ItemsUnique(a[1..], b[1..], r, q); }
      assert a == [a[0]] + a[1..] && b == [b[0]] + b[1..];
    }
  }

  lemma {:induction false} EmptyJoin()
    ensures Join([]) == []
  {}

  lemma {:induction false} TailDelimited(parts: seq<seq<Byte>>, close: Byte, r: seq<Byte>)
    requires parts != [] && Delimiter(close)
    ensures Delimited(Tail(parts, close, r))
  {}

  /** Two pieces that stand for fields of the same key with equal values. */
  ghost predicate Matched(a: seq<Field>, b: seq<Field>, p: Piece, q: Piece) {
    exists i, j :: 0 <= i < |a| && 0 <= j < |b| && p == PieceOf(Utf8, a[i]) && q == PieceOf(Utf8, b[j])
                   && Partners(a[i], b[j])
  }

  ghost predicate StandFor(x: seq<Piece>, a: seq<Field>) {
    forall p :: p in x ==> Stands(p, a)
  }

  lemma {:induction false} StandForParts(x: seq<Piece>, a: seq<Field>)
    requires StandFor(x, a) && x != []
    ensures StandFor(x[1..], a) && Stands(x[0], a)
  {
    hide Stands;
  }

  lemma {:induction false} FieldUnique(a: seq<Field>, b: seq<Field>, f: Field, g: Field, r: seq<Byte>, q: seq<Byte>)
    requires f in a && g in b && WellFormed(f.value) && WellFormed(g.value) && Delimited(r) && Delimited(q)
    requires PieceOf(Utf8, f).bytes + r == PieceOf(Utf8, g).bytes + q
    ensures Matched(a, b, PieceOf(Utf8, f), PieceOf(Utf8, g)) && r == q
    decreases a, 0
  {
    hide Serialize, WellFormed, Same, Quote, Delimited;
    var fv, gv := Serialize(Utf8, f.value), Serialize(Utf8, g.value);
    assert PieceOf(Utf8, f).bytes + r == Quote(Utf8, f.key) + ([58] + fv + r);
    assert PieceOf(Utf8, g).bytes + q == Quote(Utf8, g.key) + ([58] + gv + q);
    QuoteUnique(f.key, g.key, [58] + fv + r, [58] + gv + q);
    CancelFirst(58, fv + r, gv + q, [58] + fv + r, [58] + gv + q);
    BytesUnique(f.value, g.value, r, q);
    var i :| 0 <= i < |a| && a[i] == f;
    var j :| 0 <= j < |b| && b[j] == g;
  }

  lemma {:induction false} PiecesUnique(a: seq<Field>, b: seq<Field>, x: seq<Piece>, y: seq<Piece>, r: seq<Byte>, q: seq<Byte>)
    requires WellFormedFields(a) && WellFormedFields(b)
    requires StandFor(x, a) && StandFor(y, b)
    requires Join(Bodies(x)) + [125] + r == Join(Bodies(y)) + [125] + q
    ensures |x| == |y| && (forall i :: 0 <= i < |x| ==> Matched(a, b, x[i], y[i])) && r == q
    decreases a, 1, |x|
  {
    hide PieceOf, WellFormed, Matched, Join, Tail, StandFor;
    var xs, ys := Bodies(x), Bodies(y);
    if x != [] { StandForParts(x, a); }
    if y != [] { StandForParts(y, b); }
    if x == [] || y == [] {
      EmptyJoin();
      if x != [] { PieceStart(a, x[0], Tail(xs, 125, r)); JoinTail(xs, 125, r); }
      if y != [] { PieceStart(b, y[0], Tail(ys, 125, q)); JoinTail(ys, 125, q); }
      assert [] + [125] + r == [125] + r && [] + [125] + q == [125] + q;
      CancelPrefix([125], r, q);
    } else {
      JoinTail(xs, 125, r);
      JoinTail(ys, 125, q);
      TailDelimited(xs, 125, r);
      TailDelimited(ys, 125, q);
      var f :| f in a && x[0] == PieceOf(Utf8, f);
      var g :| g in b && y[0] == PieceOf(Utf8, g);
      FieldUnique(a, b, f, g, Tail(xs, 125, r), Tail(ys, 125, q));
      TailUnique(xs, ys, 125, r, q);
      assert xs[1..] == Bodies(x[1..]) && ys[1..] == Bodies(y[1..]);
      if |x| > 1 { PiecesUnique(a, b, x[1..], y[1..], r, q); }
      assert x == [x[0]] + x[1..] && y == [y[0]] + y[1..];
    }
  }

  lemma {:induction false} PieceStart(a: seq<Field>, p: Piece, r: seq<Byte>)
    requires Stands(p, a)
    ensures p.bytes != [] && (p.bytes + r)[0] == 34
  {
    hide Serialize;
  }

  lemma {:induction false} ObjectUnique(a: seq<Field>, b: seq<Field>, r: seq<Byte>, q: seq<Byte>)
    requires WellFormedFields(a) && WellFormedFields(b)
    requires Serialize(Utf8, Obj(a)) + r == Serialize(Utf8, Obj(b)) + q
    ensures SameFields(a, b) && r == q
    decreases a, 2
  {
    hide *;
    ObjectBytes(a);
    ObjectBytes(b);
    PiecesStand(a);
    PiecesStand(b);
    var x, y := Join(Bodies(SortedPieces(a))), Join(Bodies(SortedPieces(b)));
    assert [123] + x + [125] + r == [123] + (x + [125] + r);
    assert [123] + y + [125] + q == [123] + (y + [125] + q);
    CancelPrefix([123], x + [125] + r, y + [125] + q);
    PiecesUnique(a, b, SortedPieces(a), SortedPieces(b), r, q);
    MatchedAll(a, b, SortedPieces(a), SortedPieces(b));
  }

  function SortedPieces(a: seq<Field>): seq<Piece> {
    Sort(PieceLess, Pieces(Utf8, a))
  }

  lemma {:induction false} ObjectBytes(a: seq<Field>)
    ensures Serialize(Utf8, Obj(a)) == [123] + Join(Bodies(SortedPieces(a))) + [125]
  {}

  lemma {:induction false} PiecesStand(a: seq<Field>)
    requires WellFormedFields(a)
    ensures DistinctKeys(a) && StandFor(SortedPieces(a), a)
    ensures forall f :: f in a ==> PieceOf(Utf8, f) in SortedPieces(a)
  {
    hide PieceOf, Pieces, WellFormed;
    PiecesSorted(Utf8, a);
  }

  /** When the pieces of two dictionaries match pairwise, the dictionaries are equal. */
  lemma {:induction false} MatchedAll(a: seq<Field>, b: seq<Field>, x: seq<Piece>, y: seq<Piece>)
    requires DistinctKeys(a) && DistinctKeys(b) && |x| == |y| && forall i :: 0 <= i < |x| ==> Matched(a, b, x[i], y[i])
    requires (forall f :: f in a ==> PieceOf(Utf8, f) in x) && forall f :: f in b ==> PieceOf(Utf8, f) in y
    ensures SameFields(a, b)
  {
    hide *;
    forall i | 0 <= i < |a| ensures HasPartner(a[i], b) {
      assert a[i] in a;
      var k :| 0 <= k < |x| && x[k] == PieceOf(Utf8, a[i]);
      MatchedLeft(a, b, i, y[k]);
    }
    forall j | 0 <= j < |b| ensures IsPartner(a, b[j]) {
      assert b[j] in b;
      var k :| 0 <= k < |y| && y[k] == PieceOf(Utf8, b[j]);
      MatchedRight(a, b, j, x[k]);
    }
    AllPartners(a, b);
  }

  lemma {:induction false} AllPartners(a: seq<Field>, b: seq<Field>)
    requires forall i :: 0 <= i < |a| ==> HasPartner(a[i], b)
    requires forall j :: 0 <= j < |b| ==> IsPartner(a, b[j])
    ensures SameFields(a, b)
  {}

  lemma {:induction false} MatchedLeft(a: seq<Field>, b: seq<Field>, i: nat, q: Piece)
    requires DistinctKeys(a) && i < |a| && Matched(a, b, PieceOf(Utf8, a[i]), q)
    ensures HasPartner(a[i], b)
  {
    hide PieceOf, Partners;
    var m, j :| 0 <= m < |a| && 0 <= j < |b| && PieceOf(Utf8, a[i]) == PieceOf(Utf8, a[m]) && q == PieceOf(Utf8, b[j])
                && Partners(a[m], b[j]);
    PieceKey(a[i]);
    PieceKey(a[m]);
    assert i == m;
  }

  lemma {:induction false} MatchedRight(a: seq<Field>, b: seq<Field>, j: nat, p: Piece)
    requires DistinctKeys(b) && j < |b| && Matched(a, b, p, PieceOf(Utf8, b[j]))
    ensures IsPartner(a, b[j])
  {
    hide PieceOf, Partners;
    var i, m :| 0 <= i < |a| && 0 <= m < |b| && p == PieceOf(Utf8, a[i]) && PieceOf(Utf8, b[j]) == PieceOf(Utf8, b[m])
                && Partners(a[i], b[m]);
    PieceKey(b[j]);
    PieceKey(b[m]);
    assert j == m;
  }

  lemma {:induction false} PieceKey(f: Field)
    ensures PieceOf(Utf8, f).key == f.key
  {}

  /** Main theorem: the canonical bytes are equal exactly for equal values, so a keyed hash of them
      neither depends on insertion order nor confuses two payloads before hashing. */
  lemma {:induction false} BytesIdentifyValue(v: Value, w: Value)
    requires WellFormed(v) && WellFormed(w)
    ensures Serialize(Utf8, v) == Serialize(Utf8, w) <==> Same(v, w)
  {
    hide Serialize, Same, WellFormed;
    if Same(v, w) { SameBytes(v, w); }
    if Serialize(Utf8, v) == Serialize(Utf8, w) {
      assert Serialize(Utf8, v) + [] == Serialize(Utf8, w) + [];
      BytesUnique(v, w, [], []);
    }
  }
}
