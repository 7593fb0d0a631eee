/** The size cap on stored payloads: whole top-level fields are dropped, largest first, while a
    running length stands in for serialising again.
  */
module Payloads {
  import opened Order
  import opened Json
  import opened Redaction

  /** A field with its measured size. */
  datatype Measured = Measured(size: nat, key: Text)

  predicate DropFirst(a: Measured, b: Measured) {
    a.size > b.size || (a.size == b.size && Less(a.key, b.key))
  }

  lemma {:induction false} DropFirstIsStrictTotal()
    ensures StrictTotal(DropFirst)
  {
    LessIsStrictTotal();
  }

  function Measure(fields: seq<Field>): seq<Measured> {
    seq(|fields|, i requires 0 <= i < |fields| => Measured(FieldSize(Utf8, fields[i]), fields[i].key))
  }

  /** The order in which fields are given up. */
  function DropOrder(fields: seq<Field>): seq<Measured> {
    Sort(DropFirst, Measure(fields))
  }

  /** The dictionary after deleting a key. */
  function Delete(fields: seq<Field>, key: Text): seq<Field> {
    if fields == [] then []
    else if fields[0].key == key then fields[1..]
    else [fields[0]] + Delete(fields[1..], key)
  }

  /** The dictionary after deleting the first `n` fields of the drop order. */
  function AfterDrops(fields: seq<Field>, n: nat): seq<Field>
    requires n <= |fields|
  {
    if n == 0 then fields else Delete(AfterDrops(fields, n - 1), DropOrder(fields)[n - 1].key)
  }

  function CanonicalLength(fields: seq<Field>): nat {
    Size(Utf8, Obj(fields))
  }

  /** Dropping `n` fields is just enough. */
  ghost predicate ShortestDrop(fields: seq<Field>, maxBytes: int, n: nat) {
    && n <= |fields|
    && (n == |fields| || CanonicalLength(AfterDrops(fields, n)) <= maxBytes)
    && (forall m: nat :: m < n ==> CanonicalLength(AfterDrops(fields, m)) > maxBytes)
  }

  // ---------------------------------------------------------------------------------------
  // Deletion
  // ---------------------------------------------------------------------------------------

  ghost predicate HasField(fields: seq<Field>, size: nat, key: Text) {
    exists i :: 0 <= i < |fields| && fields[i].key == key && FieldSize(Utf8, fields[i]) == size
  }

  lemma {:induction false} HeadIsNew(fields: seq<Field>)
    requires DistinctKeys(fields) && fields != []
    ensures forall f :: f in fields[1..] ==> f.key != fields[0].key
  {
    forall f | f in fields[1..] ensures f.key != fields[0].key {
      var m :| 0 <= m < |fields[1..]| && fields[1..][m] == f;
      assert fields[m + 1] == f;
    }
  }

  lemma {:induction false} DeleteMembers(fields: seq<Field>, key: Text)
    requires DistinctKeys(fields)
    ensures forall f :: f in Delete(fields, key) <==> f in fields && f.key != key
  {
    if fields != [] {
      assert fields == [fields[0]] + fields[1..];
      HeadIsNew(fields);
      if fields[0].key != key { DeleteMembers(fields[1..], key); }
    }
  }

  lemma {:induction false} DeleteKeepsDistinct(fields: seq<Field>, key: Text)
    requires DistinctKeys(fields)
    ensures DistinctKeys(Delete(fields, key))
  {
    if fields != [] && fields[0].key != key {
      HeadIsNew(fields);
      DeleteMembers(fields[1..], key);
      DeleteKeepsDistinct(fields[1..], key);
      var r := Delete(fields[1..], key);
      forall j | 0 <= j < |r| ensures r[j].key != fields[0].key { assert r[j] in r; }
    }
  }

  lemma {:induction false} DeleteSizes(fields: seq<Field>, size: nat, key: Text)
    requires DistinctKeys(fields) && HasField(fields, size, key)
    ensures |Delete(fields, key)| == |fields| - 1
    ensures FieldSizes(Utf8, Delete(fields, key)) == FieldSizes(Utf8, fields) - size
  {
    hide FieldSize;
    var i :| 0 <= i < |fields| && fields[i].key == key && FieldSize(Utf8, fields[i]) == size;
    if fields[0].key != key {
      assert fields[1..][i - 1] == fields[i];
      DeleteSizes(fields[1..], size, key);
      assert ([fields[0]] + Delete(fields[1..], key))[1..] == Delete(fields[1..], key);
    }
  }

  lemma {:induction false} DeleteField(fields: seq<Field>, size: nat, key: Text)
    requires DistinctKeys(fields) && HasField(fields, size, key)
    ensures var r := Delete(fields, key);
            && |r| == |fields| - 1 && DistinctKeys(r)
            && FieldSizes(Utf8, r) == FieldSizes(Utf8, fields) - size
            && forall f :: f in r <==> f in fields && f.key != key
  {
    hide *;
    DeleteMembers(fields, key);
    DeleteKeepsDistinct(fields, key);
    DeleteSizes(fields, size, key);
  }

  /** The arithmetic of one removal: the field, and one comma unless it was the only field. */
  lemma {:induction false} DeleteLength(fields: seq<Field>, size: nat, key: Text)
    requires DistinctKeys(fields) && HasField(fields, size, key)
    ensures CanonicalLength(Delete(fields, key)) ==
            CanonicalLength(fields) - size - (if |fields| > 1 then 1 else 0)
  {
    DeleteField(fields, size, key);
    ObjectSize(Utf8, fields);
    ObjectSize(Utf8, Delete(fields, key));
  }

  /** Which fields are left after `n` drops. */
  lemma {:induction false} DropsLeft(fields: seq<Field>, n: nat)
    requires DistinctKeys(fields) && n <= |fields|
    ensures |AfterDrops(fields, n)| == |fields| - n && DistinctKeys(AfterDrops(fields, n))
    ensures forall f :: f in AfterDrops(fields, n) <==>
              f in fields && Measured(FieldSize(Utf8, f), f.key) in DropOrder(fields)[n..]
    ensures forall i :: n <= i < |fields| ==>
              HasField(AfterDrops(fields, n), DropOrder(fields)[i].size, DropOrder(fields)[i].key)
  {
    hide FieldSize, DropOrder, HasField, Delete, AfterDrops;
    OrderListsFields(fields);
    var order := DropOrder(fields);
    if n == 0 {
      NoDrops(fields);
      assert order[0..] == order;
      FieldsInOrder(fields);
      forall i | 0 <= i < |fields| ensures HasField(fields, order[i].size, order[i].key) {
        assert order[i] in order;
      }
    } else {
      DropsLeft(fields, n - 1);
      DropNext(fields, AfterDrops(fields, n - 1), n - 1);
      DropOne(fields, n - 1);
    }
  }

  lemma {:induction false} FieldsInOrder(fields: seq<Field>)
    requires DistinctKeys(fields)
    ensures forall f :: f in fields ==> Measured(FieldSize(Utf8, f), f.key) in DropOrder(fields)
  {
    hide FieldSize, DropOrder;
    OrderListsFields(fields);
    forall f | f in fields ensures HasField(fields, FieldSize(Utf8, f), f.key) {
      var i :| 0 <= i < |fields| && fields[i] == f;
    }
  }

  /** One more drop, from a dictionary that holds the fields from position `n` of the order on. */
  lemma {:induction false} DropNext(fields: seq<Field>, before: seq<Field>, n: nat)
    requires DistinctKeys(fields) && DistinctKeys(before) && n < |fields| && |before| == |fields| - n
    requires forall f :: f in before <==> f in fields && Measured(FieldSize(Utf8, f), f.key) in DropOrder(fields)[n..]
    requires forall i :: n <= i < |fields| ==> HasField(before, DropOrder(fields)[i].size, DropOrder(fields)[i].key)
    ensures var after := Delete(before, DropOrder(fields)[n].key);
            && |after| == |fields| - n - 1 && DistinctKeys(after)
            && (forall f :: f in after <==> f in fields && Measured(FieldSize(Utf8, f), f.key) in DropOrder(fields)[n + 1..])
            && (forall i :: n < i < |fields| ==> HasField(after, DropOrder(fields)[i].size, DropOrder(fields)[i].key))
  {
    hide FieldSize, DropOrder, HasField, DistinctKeys, Delete;
    OrderListsFields(fields);
    var order := DropOrder(fields);
    var d := order[n];
    DeleteField(before, d.size, d.key);
    var after := Delete(before, d.key);
    assert order[n..] == [d] + order[n + 1..];
    forall f ensures f in after <==> f in fields && Measured(FieldSize(Utf8, f), f.key) in order[n + 1..] {
      if Measured(FieldSize(Utf8, f), f.key) in order[n + 1..] {
        var i :| 0 <= i < |order[n + 1..]| && order[n + 1..][i] == Measured(FieldSize(Utf8, f), f.key);
        assert order[n + 1 + i].key != d.key;
      } else if f in before && Measured(FieldSize(Utf8, f), f.key) == d {
        assert f.key == d.key;
      }
    }
    forall i | n < i < |fields| ensures HasField(after, order[i].size, order[i].key) {
      HasFieldKept(before, after, order[i].size, order[i].key, d.key);
    }
  }

  lemma {:induction false} HasFieldKept(before: seq<Field>, after: seq<Field>, size: nat, key: Text, gone: Text)
    requires HasField(before, size, key) && key != gone && forall f :: f in after <==> f in before && f.key != gone
    ensures HasField(after, size, key)
  {
    hide FieldSize;
    var j :| 0 <= j < |before| && before[j].key == key && FieldSize(Utf8, before[j]) == size;
    assert before[j] in after;
    var m :| 0 <= m < |after| && after[m] == before[j];
  }

  /** The drop order lists every field once, under its own key and size. */
  lemma {:induction false} OrderListsFields(fields: seq<Field>)
    requires DistinctKeys(fields)
    ensures |DropOrder(fields)| == |fields|
    ensures SortedBy(DropFirst, DropOrder(fields))
    ensures forall i, j :: 0 <= i < j < |fields| ==> DropOrder(fields)[i].key != DropOrder(fields)[j].key
    ensures forall d :: d in DropOrder(fields) <==> HasField(fields, d.size, d.key)
  {
    hide FieldSize;
    var m := Measure(fields);
    DropFirstIsStrictTotal();
    assert Comparable(DropFirst, m) by {
      forall i, j | 0 <= i < j < |m| ensures DropFirst(m[i], m[j]) || DropFirst(m[j], m[i]) {
        assert m[i].key != m[j].key;
      }
    }
    SortSorts(DropFirst, m);
    var order := DropOrder(fields);
    forall d ensures d in order <==> HasField(fields, d.size, d.key) {
      if HasField(fields, d.size, d.key) {
        var i :| 0 <= i < |fields| && fields[i].key == d.key && FieldSize(Utf8, fields[i]) == d.size;
        assert m[i] == d;
      }
    }
    forall i, j | 0 <= i < j < |fields| ensures order[i].key != order[j].key {
      assert order[i] in order && order[j] in order && DropFirst(order[i], order[j]);
      if order[i].key == order[j].key { SameKeySameSize(fields, order[i], order[j]); }
    }
  }

  lemma {:induction false} SameKeySameSize(fields: seq<Field>, a: Measured, b: Measured)
    requires DistinctKeys(fields) && HasField(fields, a.size, a.key) && HasField(fields, b.size, b.key) && a.key == b.key
    ensures a == b
  {
    hide FieldSize;
    var i :| 0 <= i < |fields| && fields[i].key == a.key && FieldSize(Utf8, fields[i]) == a.size;
    var j :| 0 <= j < |fields| && fields[j].key == b.key && FieldSize(Utf8, fields[j]) == b.size;
    assert i == j;
  }

  // ---------------------------------------------------------------------------------------
  // The capping loop
  // ---------------------------------------------------------------------------------------

  /** Keeps the payload if it fits, and otherwise drops the shortest prefix of the drop order that
      makes it fit. The running length is the canonical length at every iteration. */
  method SemanticCap(fields: seq<Field>, maxBytes: int) returns (kept: seq<Field>, truncated: bool, length: nat)
    requires DistinctKeys(fields)
    ensures length == CanonicalLength(kept)
    ensures truncated <==> CanonicalLength(fields) > maxBytes
    ensures exists n :: ShortestDrop(fields, maxBytes, n) && kept == AfterDrops(fields, n)
    ensures !truncated ==> kept == fields
    ensures maxBytes >= 2 ==> length <= maxBytes
    ensures DistinctKeys(kept) && forall f :: f in kept ==> f in fields
    ensures LargestDropped(fields, kept)
  {
    hide FieldSize, AfterDrops, Delete, CanonicalLength, DropOrder, HasField;
    var stored := CanonicalLength(fields);
    NoDrops(fields);
    OrderListsFields(fields);
    if stored <= maxBytes {
      assert ShortestDrop(fields, maxBytes, 0);
      assert LargestDropped(fields, fields);
      return fields, false, stored;
    }
    var order := DropOrder(fields);
    kept := fields;
    var n := 0;
    while n < |order| && stored > maxBytes
      invariant n <= |order| == |fields|
      invariant kept == AfterDrops(fields, n)
      invariant stored == CanonicalLength(kept)
      invariant forall m: nat :: m < n ==> CanonicalLength(AfterDrops(fields, m)) > maxBytes
    {
      DropsLeft(fields, n);
      DeleteLength(kept, order[n].size, order[n].key);
      DropOne(fields, n);
      stored := stored - (order[n].size + if |kept| > 1 then 1 else 0);
      kept := Delete(kept, order[n].key);
      n := n + 1;
    }
    DropsLeft(fields, n);
    EmptyLength();
    DroppedFirst(fields, n);
    assert ShortestDrop(fields, maxBytes, n);
    truncated, length := true, stored;
  }

  /** Every dropped field is larger than every kept one, or as large with a smaller key. */
  ghost predicate LargestDropped(fields: seq<Field>, kept: seq<Field>) {
    forall f, g :: f in fields && f !in kept && g in kept ==>
      FieldSize(Utf8, f) > FieldSize(Utf8, g) || (FieldSize(Utf8, f) == FieldSize(Utf8, g) && Less(f.key, g.key))
  }

  lemma {:induction false} DroppedFirst(fields: seq<Field>, n: nat)
    requires DistinctKeys(fields) && n <= |fields|
    ensures LargestDropped(fields, AfterDrops(fields, n))
  {
    hide FieldSize, DropOrder, AfterDrops, Less;
    var order, kept := DropOrder(fields), AfterDrops(fields, n);
    OrderListsFields(fields);
    FieldsInOrder(fields);
    DropsLeft(fields, n);
    forall f, g | f in fields && f !in kept && g in kept
      ensures FieldSize(Utf8, f) > FieldSize(Utf8, g) || (FieldSize(Utf8, f) == FieldSize(Utf8, g) && Less(f.key, g.key))
    {
      var a, b := Measured(FieldSize(Utf8, f), f.key), Measured(FieldSize(Utf8, g), g.key);
      var i :| 0 <= i < |order| && order[i] == a;
      var j :| 0 <= j < |order[n..]| && order[n..][j] == b;
      assert forall m :: n <= m < |order| ==> order[m] in order[n..];
      assert i < n && order[n + j] == b && DropFirst(order[i], order[n + j]);
    }
  }

  lemma {:induction false} EmptyLength()
    ensures CanonicalLength([]) == 2
  {
    ObjectSize(Utf8, []);
  }

  lemma {:induction false} NoDrops(fields: seq<Field>)
    ensures AfterDrops(fields, 0) == fields
  {}

  lemma {:induction false} DropOne(fields: seq<Field>, n: nat)
    requires n < |fields|
    ensures AfterDrops(fields, n + 1) == Delete(AfterDrops(fields, n), DropOrder(fields)[n].key)
  {}

  /** The outcome is determined: only one number of drops is shortest. */
  lemma {:induction false} ShortestDropUnique(fields: seq<Field>, maxBytes: int, a: nat, b: nat)
    requires ShortestDrop(fields, maxBytes, a) && ShortestDrop(fields, maxBytes, b)
    ensures a == b
  {}

  // ---------------------------------------------------------------------------------------
  // The whole pipeline
  // ---------------------------------------------------------------------------------------

  datatype PayloadError = MaxTooSmall | NotEncodable | EmptyKey

  datatype Stored = Stored(
    payload: seq<Field>, originalLength: nat, storedLength: nat, truncated: bool, redactedCount: nat, hmac: Text)

  datatype StoreResult = Ok(stored: Stored) | Err(error: PayloadError)

  /** What is stored for a field: the placeholder if its key holds a fragment. */
  ghost predicate FieldStored(lower: Text -> Text, given: Field, stored: Field) {
    stored.key == given.key
    && stored.value == if HoldsFragment(lower(lower(given.key))) then Str(Lit("[redacted]")) else Redact(lower, given.value)
  }

  lemma {:induction false} StoredFields(lower: Text -> Text, payload: seq<Field>, kept: seq<Field>)
    requires forall f :: f in kept ==> f in RedactFields(lower, payload)
    ensures forall f :: f in kept ==> exists g :: g in payload && FieldStored(lower, g, f)
  {
    hide HoldsFragment, RedactFields;
    var redacted := RedactFields(lower, payload);
    forall f | f in kept ensures exists g :: g in payload && FieldStored(lower, g, f) {
      var i :| 0 <= i < |redacted| && redacted[i] == f;
      FieldRedacted(lower, payload, i);
      assert payload[i] in payload && FieldStored(lower, payload[i], f);
    }
  }

  /** Redacts, caps and hashes an accepted payload. `hash` stands for the keyed hash. */
  method RedactPayload(lower: Text -> Text, hash: (seq<Byte>, Text) -> Text, payload: seq<Field>, maxBytes: int, key: Text)
    returns (r: StoreResult)
    requires KeepsPlaceholder(lower) && Dictionaries(Obj(payload))
    ensures r.Err? <==> maxBytes < 2 || !EncodableFields(payload) || key == []
    ensures r.Err? ==> r.error == if maxBytes < 2 then MaxTooSmall else if !EncodableFields(payload) then NotEncodable else EmptyKey
    ensures r.Ok? ==>
      var s, redacted := r.stored, RedactFields(lower, payload);
      && s.originalLength == CanonicalLength(payload)
      && s.storedLength == CanonicalLength(s.payload)
      && s.storedLength <= maxBytes && s.storedLength <= s.originalLength
      && (exists n :: ShortestDrop(redacted, if maxBytes < s.originalLength then maxBytes else s.originalLength, n)
                      && s.payload == AfterDrops(redacted, n))
      && (s.truncated <==> CanonicalLength(redacted) > maxBytes || CanonicalLength(redacted) > s.originalLength)
      && s.redactedCount == SensitiveLeaves(lower, Obj(payload))
      && CleanFields(lower, s.payload)
      && (forall f :: f in s.payload ==> exists g :: g in payload && FieldStored(lower, g, f))
      && s.hmac == hash(Serialize(Utf8, Obj(payload)), key)
  {
    if maxBytes < 2 { return Err(MaxTooSmall); }
    if !EncodableFields(payload) { return Err(NotEncodable); }
    var original := Serialize(Utf8, Obj(payload));
    if key == [] { return Err(EmptyKey); }
    var redacted := RedactFields(lower, payload);
    var count := CountReplaced(lower, Obj(payload), Redact(lower, Obj(payload)));
    CountIsSensitiveLeaves(lower, Obj(payload));
    RedactCleansFields(lower, payload);
    ObjectSize(Utf8, payload);
    var cap := if maxBytes < |original| then maxBytes else |original|;
    var kept, truncated, length := SemanticCap(redacted, cap);
    StoredFields(lower, payload, kept);
    CleanSubset(lower, redacted, kept);
    r := Ok(Stored(kept, |original|, length, truncated, count, hash(original, key)));
  }

  lemma {:induction false} CleanSubset(lower: Text -> Text, all: seq<Field>, some: seq<Field>)
    requires CleanFields(lower, all) && forall f :: f in some ==> f in all
    ensures CleanFields(lower, some)
  {
    if some != [] {
      CleanMember(lower, all, some[0]);
      CleanSubset(lower, all, some[1..]);
    }
  }

  lemma {:induction false} CleanMember(lower: Text -> Text, all: seq<Field>, f: Field)
    requires CleanFields(lower, all) && f in all
    ensures if SensitiveKey(lower, f.key) then f.value == Str(PLACEHOLDER) else Clean(lower, f.value)
  {
    if all[0] != f { CleanMember(lower, all[1..], f); }
  }
}
