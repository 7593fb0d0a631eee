/** Opaque page cursors: unpadded URL-safe base64 (section 5 of RFC 4648) around a printed cursor. */
module Cursors {
  import opened Order
  import opened Json

  datatype Option<+T> = None | Some(value: T)

  const PAD: CodePoint := 61

  type Sextet = n: nat | n < 64

  /** The URL-safe alphabet. */
  function Letter(n: Sextet): CodePoint {
    if n < 26 then 65 + n
    else if n < 52 then 71 + n
    else if n < 62 then n - 4
    else if n == 62 then 45
    else 95
  }

  /** The decoder maps `-` and `_` to the standard letters, so it also takes those. */
  function Digit(c: CodePoint): Option<Sextet> {
    if 65 <= c <= 90 then Some(c - 65)
    else if 97 <= c <= 122 then Some(c - 71)
    else if 48 <= c <= 57 then Some(c + 4)
    else if c == 45 || c == 43 then Some(62)
    else if c == 95 || c == 47 then Some(63)
    else None
  }

  /** Base64 with padding. */
  function Encode(bytes: seq<Byte>): Text {
    if |bytes| == 0 then []
    else if |bytes| == 1 then
      [Letter(bytes[0] / 4), Letter(bytes[0] % 4 * 16), PAD, PAD]
    else if |bytes| == 2 then
      [Letter(bytes[0] / 4), Letter(bytes[0] % 4 * 16 + bytes[1] / 16), Letter(bytes[1] % 16 * 4), PAD]
    else
      [Letter(bytes[0] / 4), Letter(bytes[0] % 4 * 16 + bytes[1] / 16),
       Letter(bytes[1] % 16 * 4 + bytes[2] / 64), Letter(bytes[2] % 64)] + Encode(bytes[3..])
  }

  /** `rstrip("=")` */
  function Strip(t: Text): Text {
    if t != [] && t[|t| - 1] == PAD then Strip(t[..|t| - 1]) else t
  }

  /** `value + "=" * (-len(value) % 4)` */
  function Repad(t: Text): (r: Text)
    ensures |r| % 4 == 0
  {
    t + seq((4 - |t| % 4) % 4, _ => PAD)
  }

  /** Decodes the part before the padding. */
  function DecodeBody(t: Text): Option<seq<Byte>> {
    if |t| == 0 then Some([])
    else if |t| == 1 then None
    else
      var a, b := Digit(t[0]), Digit(t[1]);
      if a.None? || b.None? then None
      else
        var first: Byte := a.value * 4 + b.value / 16;
        if |t| == 2 then Some([first])
        else
          var c := Digit(t[2]);
          if c.None? then None
          else
            var second: Byte := b.value % 16 * 16 + c.value / 4;
            if |t| == 3 then Some([first, second])
            else
              var d := Digit(t[3]);
              var rest := DecodeBody(t[4..]);
              if d.None? || rest.None? then None
              else Some([first, second, c.value % 4 * 64 + d.value] + rest.value)
  }

  /** Strict decoding of a padded text: at most two padding characters, and only at the end. */
  function DecodePadded(t: Text): Option<seq<Byte>> {
    var body := Strip(t);
    if |t| - |body| > 2 then None else DecodeBody(body)
  }

  // ---------------------------------------------------------------------------------------
  // Round trip
  // ---------------------------------------------------------------------------------------

  lemma {:induction false} LetterDigit(n: Sextet)
    ensures Digit(Letter(n)) == Some(n) && Letter(n) != PAD
  {}

  /** The letters are those of table 2 of RFC 4648; the decoder also takes `+` and `/`. */
  lemma {:induction false} LettersAreAlphabet(n: Sextet, c: CodePoint)
    ensures PAD == '=' as nat
    ensures n < 26 ==> Letter(n) == 'A' as nat + n
    ensures 26 <= n < 52 ==> Letter(n) == 'a' as nat + (n - 26)
    ensures 52 <= n < 62 ==> Letter(n) == '0' as nat + (n - 52)
    ensures n == 62 ==> Letter(n) == '-' as nat
    ensures n == 63 ==> Letter(n) == '_' as nat
    ensures Digit(c).Some? <==> (exists m: Sextet :: Letter(m) == c) || c == '+' as nat || c == '/' as nat
  {
    if Digit(c).Some? && c != '+' as nat && c != '/' as nat { assert Letter(Digit(c).value) == c; }
    forall m: Sextet ensures Digit(Letter(m)).Some? { LetterDigit(m); }
  }

  /** Four letters stand for the 24 bits of three bytes, most significant first; missing bytes count as
      zero and their letters are padding. */
  ghost predicate StandsFor(t: Text, bytes: seq<Byte>, a: Sextet, b: Sextet, c: Sextet, d: Sextet)
    requires bytes != []
  {
    var x: nat, y: nat, z: nat := bytes[0], if |bytes| > 1 then bytes[1] else 0, if |bytes| > 2 then bytes[2] else 0;
    var ab: nat := a as nat * 64 + b as nat;
    && x * 65_536 + y * 256 + z == (ab * 64 + c as nat) * 64 + d as nat
    && t == [Letter(a), Letter(b), if |bytes| > 1 then Letter(c) else PAD, if |bytes| > 2 then Letter(d) else PAD]
  }

  lemma {:induction false} EncodeGroup(bytes: seq<Byte>)
    requires bytes != []
    ensures |Encode(bytes)| >= 4
    ensures exists a: Sextet, b: Sextet, c: Sextet, d: Sextet :: StandsFor(Encode(bytes)[..4], bytes, a, b, c, d)
    ensures Encode(bytes)[4..] == if |bytes| > 3 then Encode(bytes[3..]) else []
  {
    hide Letter;
    var x: nat, y: nat, z: nat := bytes[0], if |bytes| > 1 then bytes[1] else 0, if |bytes| > 2 then bytes[2] else 0;
    var a: Sextet, b: Sextet := x / 4, x % 4 * 16 + y / 16;
    var c: Sextet, d: Sextet := y % 16 * 4 + z / 64, z % 64;
    if |bytes| > 2 { assert Encode(bytes)[4..] == Encode(bytes[3..]); }
    assert StandsFor(Encode(bytes)[..4], bytes, a, b, c, d);
  }

  /** The encoding without its padding. */
  function Body(bytes: seq<Byte>): Text {
    if |bytes| == 0 then []
    else if |bytes| == 1 then [Letter(bytes[0] / 4), Letter(bytes[0] % 4 * 16)]
    else if |bytes| == 2 then
      [Letter(bytes[0] / 4), Letter(bytes[0] % 4 * 16 + bytes[1] / 16), Letter(bytes[1] % 16 * 4)]
    else
      [Letter(bytes[0] / 4), Letter(bytes[0] % 4 * 16 + bytes[1] / 16),
       Letter(bytes[1] % 16 * 4 + bytes[2] / 64), Letter(bytes[2] % 64)] + Body(bytes[3..])
  }

  lemma {:induction false} BodyHasNoPad(bytes: seq<Byte>)
    ensures PAD !in Body(bytes)
    ensures |Body(bytes)| % 4 == (if |bytes| % 3 == 0 then 0 else |bytes| % 3 + 1)
  {
    hide Letter;
    forall n: Sextet ensures Letter(n) != PAD { LetterDigit(n); }
    if |bytes| >= 3 {
      BodyHasNoPad(bytes[3..]);
      assert |Body(bytes)| == 4 + |Body(bytes[3..])|;
    }
  }

  lemma {:induction false} StripPads(t: Text, n: nat)
    requires PAD !in t
    ensures Strip(t + seq(n, _ => PAD)) == t
  {
    var all := t + seq(n, _ => PAD);
    if n == 0 {
      assert all == t;
    } else {
      assert all[..|all| - 1] == t + seq(n - 1, _ => PAD);
      StripPads(t, n - 1);
    }
  }

  lemma {:induction false} EncodeIsBody(bytes: seq<Byte>)
    ensures Encode(bytes) == Body(bytes) + seq((3 - |bytes| % 3) % 3, _ => PAD)
  {
    if |bytes| >= 3 { EncodeIsBody(bytes[3..]); }
  }

  /** Splitting bytes into sextets and putting them together again. */
  lemma {:induction false} SextetsOfBytes(x: Byte, y: Byte, z: Byte)
    ensures x / 4 * 4 + (x % 4 * 16 + y / 16) / 16 == x && x / 4 * 4 + (x % 4 * 16) / 16 == x
    ensures (x % 4 * 16 + y / 16) % 16 * 16 + (y % 16 * 4 + z / 64) / 4 == y
    ensures (x % 4 * 16 + y / 16) % 16 * 16 + (y % 16 * 4) / 4 == y
    ensures (y % 16 * 4 + z / 64) % 4 * 64 + z % 64 == z
  {}

  lemma {:induction false} DecodeOfTwo(x: Byte, y: Byte)
    ensures DecodeBody([Letter(x / 4), Letter(x % 4 * 16 + y / 16), Letter(y % 16 * 4)]) == Some([x, y])
  {
    hide Letter, Digit;
    SextetsOfBytes(x, y, 0);
    LetterDigit(x / 4);
    LetterDigit(x % 4 * 16 + y / 16);
    LetterDigit(y % 16 * 4);
  }

  lemma {:induction false} DecodeOfOne(x: Byte)
    ensures DecodeBody([Letter(x / 4), Letter(x % 4 * 16)]) == Some([x])
  {
    hide Letter, Digit;
    SextetsOfBytes(x, 0, 0);
    LetterDigit(x / 4);
    LetterDigit(x % 4 * 16);
  }

  lemma {:induction false} DecodeOfThree(x: Byte, y: Byte, z: Byte, rest: Text, tail: seq<Byte>)
    requires DecodeBody(rest) == Some(tail)
    ensures DecodeBody([Letter(x / 4), Letter(x % 4 * 16 + y / 16), Letter(y % 16 * 4 + z / 64), Letter(z % 64)] + rest)
         == Some([x, y, z] + tail)
  {
    hide Letter, Digit;
    SextetsOfBytes(x, y, z);
    LetterDigit(x / 4);
    LetterDigit(x % 4 * 16 + y / 16);
    LetterDigit(y % 16 * 4 + z / 64);
    LetterDigit(z % 64);
    var t := [Letter(x / 4), Letter(x % 4 * 16 + y / 16), Letter(y % 16 * 4 + z / 64), Letter(z % 64)] + rest;
    assert t[4..] == rest;
  }

  lemma {:induction false} DecodeOfBody(bytes: seq<Byte>)
    ensures DecodeBody(Body(bytes)) == Some(bytes)
  {
    hide Letter, DecodeBody;
    if |bytes| == 0 {
      DecodeOfNone();
    } else if |bytes| == 1 {
      DecodeOfOne(bytes[0]);
      assert bytes == [bytes[0]];
    } else if |bytes| == 2 {
      DecodeOfTwo(bytes[0], bytes[1]);
      assert bytes == [bytes[0], bytes[1]];
    } else {
      DecodeOfBody(bytes[3..]);
      DecodeOfThree(bytes[0], bytes[1], bytes[2], Body(bytes[3..]), bytes[3..]);
      assert bytes == [bytes[0], bytes[1], bytes[2]] + bytes[3..];
    }
  }

  lemma {:induction false} DecodeOfNone()
    ensures DecodeBody([]) == Some([])
  {}

  /** Main theorem: stripping the padding loses nothing; re-padding by the length decodes to the
      encoded bytes. */
  lemma {:induction false} Base64RoundTrip(bytes: seq<Byte>)
    ensures DecodePadded(Repad(Strip(Encode(bytes)))) == Some(bytes)
    ensures PAD !in Strip(Encode(bytes))
  {
    hide Encode, Body, Strip, DecodeBody;
    EncodeIsBody(bytes);
    BodyHasNoPad(bytes);
    StripPads(Body(bytes), (3 - |bytes| % 3) % 3);
    StripPads(Body(bytes), (4 - |Body(bytes)| % 4) % 4);
    DecodeOfBody(bytes);
  }

  lemma {:induction false} BodyDecodes(t: Text)
    ensures DecodeBody(t).Some? <==> |t| % 4 != 1 && forall c :: c in t ==> Digit(c).Some?
  {
    hide Digit;
    if |t| >= 4 {
      BodyDecodes(t[4..]);
      assert t == t[..4] + t[4..];
      assert forall c :: c in t <==> c in [t[0], t[1], t[2], t[3]] || c in t[4..];
    } else if |t| >= 2 {
      assert forall c :: c in t <==> exists i :: 0 <= i < |t| && t[i] == c;
    }
  }

  /** An unpadded text is accepted exactly when its letters are in the alphabet and its length
      leaves no single letter over. */
  lemma {:induction false} AcceptedTexts(t: Text)
    requires PAD !in t
    ensures DecodePadded(Repad(t)).Some? <==> |t| % 4 != 1 && forall c :: c in t ==> Digit(c).Some?
  {
    hide Strip, DecodeBody, Digit;
    StripPads(t, (4 - |t| % 4) % 4);
    BodyDecodes(t);
  }

  // ---------------------------------------------------------------------------------------
  // Cursors
  // ---------------------------------------------------------------------------------------

  datatype Cursor = Cursor(at: int, id: int)

  /** Printing and parsing of the JSON object inside a cursor; only their agreement is used. */
  datatype Codec = Codec(print_: Cursor -> seq<Byte>, parse: seq<Byte> -> Option<Cursor>) {
    ghost predicate Valid() {
      forall c :: parse(print_(c)) == Some(c)
    }

    function EncodeCursor(c: Cursor): Text {
      Strip(Encode(print_(c)))
    }

    function DecodeCursor(t: Text): Option<Cursor> {
      var bytes := DecodePadded(Repad(t));
      if bytes.None? then None else parse(bytes.value)
    }

    lemma {:induction false} CursorRoundTrip(c: Cursor)
      requires Valid()
      ensures DecodeCursor(EncodeCursor(c)) == Some(c)
    {
      Base64RoundTrip(print_(c));
    }
  }
}
