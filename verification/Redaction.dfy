/** The audit redactor and its count of replaced leaves.

    `lower` stands for Unicode lower-casing. All that is asked of it is that it leaves the
    placeholder as it is.
  */
module Redaction {
  import opened Order
  import opened Json

  const PLACEHOLDER: Text := Lit("[redacted]")

  const FRAGMENTS: seq<Text> := [
    Lit("raw_payload"), Lit("payload"), Lit("credential"), Lit("password"), Lit("token"),
    Lit("secret"), Lit("plugin_config"), Lit("api_key"), Lit("apikey"), Lit("auth")]

  predicate Sensitive(lower: Text -> Text, text: Text) {
    exists f :: f in FRAGMENTS && Contains(lower(text), f)
  }

  /** Keys are lower-cased once more before the test. */
  predicate SensitiveKey(lower: Text -> Text, key: Text) {
    Sensitive(lower, lower(key))
  }

  ghost predicate KeepsPlaceholder(lower: Text -> Text) {
    lower(PLACEHOLDER) == PLACEHOLDER
  }

  function Redact(lower: Text -> Text, v: Value): Value
    decreases v, 1
  {
    match v
    case Obj(fields) => Obj(RedactFields(lower, fields))
    case Arr(items) => Arr(RedactItems(lower, items))
    case Str(s) => if Sensitive(lower, s) then Str(PLACEHOLDER) else v
    case _ => v
  }

  function RedactFields(lower: Text -> Text, fields: seq<Field>): (r: seq<Field>)
    ensures |r| == |fields|
    ensures forall i :: 0 <= i < |fields| ==> r[i].key == fields[i].key
    decreases fields, 0
  {
    if fields == [] then []
    else [Field(fields[0].key,
                if SensitiveKey(lower, fields[0].key) then Str(PLACEHOLDER) else Redact(lower, fields[0].value))]
         + RedactFields(lower, fields[1..])
  }

  function RedactItems(lower: Text -> Text, items: seq<Value>): (r: seq<Value>)
    ensures |r| == |items|
    decreases items, 0
  {
    if items == [] then [] else [Redact(lower, items[0])] + RedactItems(lower, items[1..])
  }

  // ---------------------------------------------------------------------------------------
  // What is sensitive
  // ---------------------------------------------------------------------------------------

  /** One of the ten fragments stands somewhere in the text. */
  ghost predicate HoldsFragment(t: Text) {
    || Spells(t, "raw_payload") || Spells(t, "payload") || Spells(t, "credential") || Spells(t, "password")
    || Spells(t, "token") || Spells(t, "secret") || Spells(t, "plugin_config") || Spells(t, "api_key")
    || Spells(t, "apikey") || Spells(t, "auth")
  }

  lemma {:induction false} FragmentsListed()
    ensures Lit("raw_payload") in FRAGMENTS && Lit("payload") in FRAGMENTS && Lit("credential") in FRAGMENTS
    ensures Lit("password") in FRAGMENTS && Lit("token") in FRAGMENTS
  {
    hide Lit;
  }

  lemma {:induction false} MoreFragmentsListed()
    ensures Lit("secret") in FRAGMENTS && Lit("plugin_config") in FRAGMENTS && Lit("api_key") in FRAGMENTS
    ensures Lit("apikey") in FRAGMENTS && Lit("auth") in FRAGMENTS
  {
    hide Lit;
  }

  lemma {:induction false} FragmentsAre(f: Text)
    requires f in FRAGMENTS
    ensures || f == Lit("raw_payload") || f == Lit("payload") || f == Lit("credential") || f == Lit("password")
            || f == Lit("token") || f == Lit("secret") || f == Lit("plugin_config") || f == Lit("api_key")
            || f == Lit("apikey") || f == Lit("auth")
  {
    hide Lit;
  }

  lemma {:induction false} FragmentsSpelled(t: Text)
    ensures (exists f :: f in FRAGMENTS && Contains(t, f)) <==> HoldsFragment(t)
  {
    hide Spells, Contains, Lit, FRAGMENTS;
    ContainsSpelled(t, "raw_payload");
    ContainsSpelled(t, "payload");
    ContainsSpelled(t, "credential");
    ContainsSpelled(t, "password");
    ContainsSpelled(t, "token");
    ContainsSpelled(t, "secret");
    ContainsSpelled(t, "plugin_config");
    ContainsSpelled(t, "api_key");
    ContainsSpelled(t, "apikey");
    ContainsSpelled(t, "auth");
    FragmentsListed();
    MoreFragmentsListed();
    forall f | f in FRAGMENTS && Contains(t, f) ensures HoldsFragment(t) { FragmentsAre(f); }
  }

  lemma {:induction false} SensitiveIff(lower: Text -> Text, t: Text)
    ensures Sensitive(lower, t) <==> HoldsFragment(lower(t))
    ensures SensitiveKey(lower, t) <==> HoldsFragment(lower(lower(t)))
  {
    FragmentsSpelled(lower(t));
    FragmentsSpelled(lower(lower(t)));
  }

  /** A string is replaced exactly when its lower-cased text holds a fragment at some place. */
  lemma {:induction false} StringRedacted(lower: Text -> Text, s: Text)
    ensures Redact(lower, Str(s)) == Str(if HoldsFragment(lower(s)) then Lit("[redacted]") else s)
  {
    hide Sensitive, HoldsFragment;
    SensitiveIff(lower, s);
  }

  /** A field keeps its place and key. Its value is replaced exactly when its key, lower-cased twice,
      holds a fragment, and is redacted on its own otherwise. */
  lemma {:induction false} FieldRedacted(lower: Text -> Text, fields: seq<Field>, i: nat)
    requires i < |fields|
    ensures Redact(lower, Obj(fields)).Obj? && |Redact(lower, Obj(fields)).fields| == |fields|
    ensures Redact(lower, Obj(fields)).fields[i] ==
            Field(fields[i].key, if HoldsFragment(lower(lower(fields[i].key))) then Str(Lit("[redacted]"))
                                 else Redact(lower, fields[i].value))
  {
    hide SensitiveKey, HoldsFragment;
    SensitiveIff(lower, fields[i].key);
    RedactFieldsAt(lower, fields);
  }

  // ---------------------------------------------------------------------------------------
  // What redaction achieves
  // ---------------------------------------------------------------------------------------

  /** Nothing sensitive is left: no sensitive string, and only the placeholder under a sensitive key. */
  ghost predicate Clean(lower: Text -> Text, v: Value)
    decreases v, 1
  {
    match v
    case Obj(fields) => CleanFields(lower, fields)
    case Arr(items) => CleanItems(lower, items)
    case Str(s) => !Sensitive(lower, s)
    case _ => true
  }

  ghost predicate CleanFields(lower: Text -> Text, fields: seq<Field>)
    decreases fields, 0
  {
    fields == [] ||
    ((if SensitiveKey(lower, fields[0].key) then fields[0].value == Str(PLACEHOLDER) else Clean(lower, fields[0].value))
     && CleanFields(lower, fields[1..]))
  }

  ghost predicate CleanItems(lower: Text -> Text, items: seq<Value>)
    decreases items, 0
  {
    items == [] || (Clean(lower, items[0]) && CleanItems(lower, items[1..]))
  }

  /** No fragment fits into the placeholder: each has a letter that the placeholder lacks. */
  lemma {:induction false} PlaceholderIsClean(lower: Text -> Text)
    requires KeepsPlaceholder(lower)
    ensures !Sensitive(lower, PLACEHOLDER)
  {
    forall f | f in FRAGMENTS ensures !Contains(PLACEHOLDER, f) {
      FragmentLetter(f);
      var j :| 0 <= j < |f| && f[j] !in PLACEHOLDER;
      forall i: nat | i <= |PLACEHOLDER| - |f| ensures !OccursAt(PLACEHOLDER, f, i) {
        assert PLACEHOLDER[i..i + |f|][j] == PLACEHOLDER[i + j];
      }
    }
  }

  lemma {:induction false} Missing(c: char)
    requires c in "pnosu"
    ensures c as CodePoint !in PLACEHOLDER
  {
    assert forall i :: 0 <= i < |PLACEHOLDER| ==> PLACEHOLDER[i] == "[redacted]"[i] as CodePoint;
  }

  lemma {:induction false} FragmentLetter(f: Text)
    requires f in FRAGMENTS
    ensures exists j :: 0 <= j < |f| && f[j] !in PLACEHOLDER
  {
    Missing('p');
    Missing('n');
    Missing('o');
    Missing('s');
    Missing('u');
    FragmentMark(f);
  }

  /** Where each fragment has a letter that the placeholder lacks. */
  lemma {:induction false} FragmentMark(f: Text)
    requires f in FRAGMENTS
    ensures exists j :: 0 <= j < |f| && f[j] in [112, 110, 111, 115, 117]
  {
    assert Lit("raw_payload")[4] == 112 && Lit("payload")[0] == 112 && Lit("credential")[5] == 110;
    assert Lit("password")[0] == 112 && Lit("token")[1] == 111 && Lit("secret")[0] == 115;
    assert Lit("plugin_config")[0] == 112 && Lit("api_key")[1] == 112 && Lit("apikey")[1] == 112;
    assert Lit("auth")[1] == 117;
  }

  lemma {:induction false} RedactCleans(lower: Text -> Text, v: Value)
    requires KeepsPlaceholder(lower)
    ensures Clean(lower, Redact(lower, v))
    decreases v, 1
  {
    hide Sensitive;
    PlaceholderIsClean(lower);
    match v
    case Obj(fields) => RedactCleansFields(lower, fields);
    case Arr(items) => RedactCleansItems(lower, items);
    case _ =>
  }

  lemma {:induction false} RedactCleansFields(lower: Text -> Text, fields: seq<Field>)
    requires KeepsPlaceholder(lower)
    ensures CleanFields(lower, RedactFields(lower, fields))
    decreases fields, 0
  {
    hide Sensitive;
    if fields != [] {
      RedactCleans(lower, fields[0].value);
      RedactCleansFields(lower, fields[1..]);
    }
  }

  lemma {:induction false} RedactCleansItems(lower: Text -> Text, items: seq<Value>)
    requires KeepsPlaceholder(lower)
    ensures CleanItems(lower, RedactItems(lower, items))
    decreases items, 0
  {
    if items != [] {
      RedactCleans(lower, items[0]);
      RedactCleansItems(lower, items[1..]);
    }
  }

  /** Redaction changes exactly the values that are not clean. */
  lemma {:induction false} CleanIsFixpoint(lower: Text -> Text, v: Value)
    requires KeepsPlaceholder(lower)
    ensures Redact(lower, v) == v <==> Clean(lower, v)
    decreases v, 1
  {
    hide Sensitive;
    PlaceholderIsClean(lower);
    match v
    case Obj(fields) => CleanFieldsFixpoint(lower, fields);
    case Arr(items) => CleanItemsFixpoint(lower, items);
    case _ =>
  }

  lemma {:induction false} CleanFieldsFixpoint(lower: Text -> Text, fields: seq<Field>)
    requires KeepsPlaceholder(lower)
    ensures RedactFields(lower, fields) == fields <==> CleanFields(lower, fields)
    decreases fields, 0
  {
    hide Sensitive;
    if fields != [] {
      CleanIsFixpoint(lower, fields[0].value);
      CleanFieldsFixpoint(lower, fields[1..]);
      var r := RedactFields(lower, fields);
      assert r[1..] == RedactFields(lower, fields[1..]);
      assert fields == [fields[0]] + fields[1..] && r == [r[0]] + r[1..];
    }
  }

  lemma {:induction false} CleanItemsFixpoint(lower: Text -> Text, items: seq<Value>)
    requires KeepsPlaceholder(lower)
    ensures RedactItems(lower, items) == items <==> CleanItems(lower, items)
    decreases items, 0
  {
    if items != [] {
      CleanIsFixpoint(lower, items[0]);
      CleanItemsFixpoint(lower, items[1..]);
      var r := RedactItems(lower, items);
      assert r[1..] == RedactItems(lower, items[1..]);
      assert items == [items[0]] + items[1..] && r == [r[0]] + r[1..];
    }
  }

  /** Main theorem: redaction is idempotent and leaves nothing sensitive. */
  lemma {:induction false} RedactionIsFinal(lower: Text -> Text, v: Value)
    requires KeepsPlaceholder(lower)
    ensures Clean(lower, Redact(lower, v))
    ensures Redact(lower, Redact(lower, v)) == Redact(lower, v)
  {
    RedactCleans(lower, v);
    CleanIsFixpoint(lower, Redact(lower, v));
  }

  /** Outside replaced leaves the tree is as it was: same keys in the same order, same list
      lengths, same scalars. */
  ghost predicate SameBut(lower: Text -> Text, v: Value, r: Value)
    decreases v, 1
  {
    match v
    case Obj(fields) => r.Obj? && SameFieldsBut(lower, fields, r.fields)
    case Arr(items) => r.Arr? && SameItemsBut(lower, items, r.items)
    case Str(s) => r == if Sensitive(lower, s) then Str(PLACEHOLDER) else v
    case _ => r == v
  }

  ghost predicate SameFieldsBut(lower: Text -> Text, fields: seq<Field>, r: seq<Field>)
    decreases fields, 0
  {
    |r| == |fields| &&
    forall i :: 0 <= i < |fields| ==>
      r[i].key == fields[i].key
      && if SensitiveKey(lower, fields[i].key) then r[i].value == Str(PLACEHOLDER)
         else SameBut(lower, fields[i].value, r[i].value)
  }

  ghost predicate SameItemsBut(lower: Text -> Text, items: seq<Value>, r: seq<Value>)
    decreases items, 0
  {
    |r| == |items| && forall i :: 0 <= i < |items| ==> SameBut(lower, items[i], r[i])
  }

  lemma {:induction false} RedactKeepsRest(lower: Text -> Text, v: Value)
    ensures SameBut(lower, v, Redact(lower, v))
    decreases v, 1
  {
    hide Sensitive;
    match v
    case Obj(fields) => RedactFieldsAt(lower, fields);
      forall i | 0 <= i < |fields| { RedactKeepsRest(lower, fields[i].value); }
    case Arr(items) => RedactItemsAt(lower, items);
      forall i | 0 <= i < |items| { RedactKeepsRest(lower, items[i]); }
    case _ =>
  }

  lemma {:induction false} RedactFieldsAt(lower: Text -> Text, fields: seq<Field>)
    ensures forall i | 0 <= i < |fields| :: RedactFields(lower, fields)[i].value ==
              if SensitiveKey(lower, fields[i].key) then Str(PLACEHOLDER) else Redact(lower, fields[i].value)
  {
    hide Sensitive, Redact;
    if fields != [] { RedactFieldsAt(lower, fields[1..]); }
  }

  lemma {:induction false} RedactItemsAt(lower: Text -> Text, items: seq<Value>)
    ensures forall i :: 0 <= i < |items| ==> RedactItems(lower, items)[i] == Redact(lower, items[i])
  {
    hide Redact;
    if items != [] { RedactItemsAt(lower, items[1..]); }
  }

  // ---------------------------------------------------------------------------------------
  // Counting
  // ---------------------------------------------------------------------------------------

  /** `fields.get(key, default)` */
  function Get(fields: seq<Field>, key: Text, default: Value): Value {
    if fields == [] then default
    else if fields[0].key == key then fields[0].value
    else Get(fields[1..], key, default)
  }

  function CountReplaced(lower: Text -> Text, original: Value, redacted: Value): nat
    decreases original, 1
  {
    if original.Obj? && redacted.Obj? then CountFields(lower, original.fields, redacted.fields)
    else if original.Arr? && redacted.Arr? then CountItems(lower, original.items, redacted.items)
    else if original != redacted then 1 else 0
  }

  function CountFields(lower: Text -> Text, fields: seq<Field>, redacted: seq<Field>): nat
    decreases fields, 0
  {
    if fields == [] then 0
    else (if SensitiveKey(lower, fields[0].key) then 1
          else CountReplaced(lower, fields[0].value, Get(redacted, fields[0].key, fields[0].value)))
         + CountFields(lower, fields[1..], redacted)
  }

  function CountItems(lower: Text -> Text, items: seq<Value>, redacted: seq<Value>): nat
    decreases items, 0
  {
    if items == [] || redacted == [] then 0
    else CountReplaced(lower, items[0], redacted[0]) + CountItems(lower, items[1..], redacted[1..])
  }

  /** The sensitive positions of a tree: fields with a sensitive key, and sensitive strings elsewhere. */
  function SensitiveLeaves(lower: Text -> Text, v: Value): nat
    decreases v, 1
  {
    match v
    case Obj(fields) => SensitiveInFields(lower, fields)
    case Arr(items) => SensitiveInItems(lower, items)
    case Str(s) => if Sensitive(lower, s) then 1 else 0
    case _ => 0
  }

  function SensitiveInFields(lower: Text -> Text, fields: seq<Field>): nat
    decreases fields, 0
  {
    if fields == [] then 0
    else (if SensitiveKey(lower, fields[0].key) then 1 else SensitiveLeaves(lower, fields[0].value))
         + SensitiveInFields(lower, fields[1..])
  }

  function SensitiveInItems(lower: Text -> Text, items: seq<Value>): nat
    decreases items, 0
  {
    if items == [] then 0 else SensitiveLeaves(lower, items[0]) + SensitiveInItems(lower, items[1..])
  }

  /** Every object in the tree is a dictionary. */
  ghost predicate Dictionaries(v: Value)
    decreases v, 1
  {
    match v
    case Obj(fields) => DictionaryFields(fields)
    case Arr(items) => forall i :: 0 <= i < |items| ==> Dictionaries(items[i])
    case _ => true
  }

  ghost predicate DictionaryFields(fields: seq<Field>)
    decreases fields, 0
  {
    DistinctKeys(fields) && forall i :: 0 <= i < |fields| ==> Dictionaries(fields[i].value)
  }

  lemma {:induction false} GetAt(fields: seq<Field>, i: nat, default: Value)
    requires DistinctKeys(fields) && i < |fields|
    ensures Get(fields, fields[i].key, default) == fields[i].value
  {
    if i > 0 { GetAt(fields[1..], i - 1, default); }
  }

  /** Main theorem: comparing the tree with its redaction counts exactly the sensitive positions
      of the original. */
  lemma {:induction false} CountIsSensitiveLeaves(lower: Text -> Text, v: Value)
    requires KeepsPlaceholder(lower) && Dictionaries(v)
    ensures CountReplaced(lower, v, Redact(lower, v)) == SensitiveLeaves(lower, v)
    decreases v, 1
  {
    hide Sensitive;
    PlaceholderIsClean(lower);
    match v
    case Obj(fields) =>
      RedactFieldsAt(lower, fields);
      CountFieldsFrom(lower, fields, 0);
      assert fields[0..] == fields;
    case Arr(items) => CountItemsAll(lower, items);
    case _ =>
  }

  lemma {:induction false} CountFieldsFrom(lower: Text -> Text, fields: seq<Field>, i: nat)
    requires KeepsPlaceholder(lower) && DictionaryFields(fields) && i <= |fields|
    ensures CountFields(lower, fields[i..], RedactFields(lower, fields)) == SensitiveInFields(lower, fields[i..])
    decreases fields, 0, |fields| - i
  {
    hide Sensitive, Redact;
    if i < |fields| {
      var redacted := RedactFields(lower, fields);
      CountFieldsFrom(lower, fields, i + 1);
      assert fields[i..][1..] == fields[i + 1..] && fields[i..][0] == fields[i];
      GetAt(redacted, i, fields[i].value);
      RedactFieldsAt(lower, fields);
      if !SensitiveKey(lower, fields[i].key) { CountIsSensitiveLeaves(lower, fields[i].value); }
    }
  }

  lemma {:induction false} CountItemsAll(lower: Text -> Text, items: seq<Value>)
    requires KeepsPlaceholder(lower) && forall i :: 0 <= i < |items| ==> Dictionaries(items[i])
    ensures CountItems(lower, items, RedactItems(lower, items)) == SensitiveInItems(lower, items)
    decreases items, 0
  {
    hide Redact;
    if items != [] {
      CountIsSensitiveLeaves(lower, items[0]);
      CountItemsAll(lower, items[1..]);
      assert RedactItems(lower, items)[1..] == RedactItems(lower, items[1..]);
    }
  }

  // ---------------------------------------------------------------------------------------
  // Positions
  // ---------------------------------------------------------------------------------------

  /** At this position something is replaced. A position is a path of field and item numbers. */
  ghost predicate ReplacedAt(lower: Text -> Text, v: Value, path: seq<nat>)
    decreases |path|
  {
    match v
    case Obj(fields) =>
      path != [] && path[0] < |fields|
      && if HoldsFragment(lower(lower(fields[path[0]].key))) then |path| == 1
         else ReplacedAt(lower, fields[path[0]].value, path[1..])
    case Arr(items) => path != [] && path[0] < |items| && ReplacedAt(lower, items[path[0]], path[1..])
    case Str(s) => path == [] && HoldsFragment(lower(s))
    case _ => false
  }

  /** The paths that lead on from number `k`. */
  lemma {:induction false} Prefixed(k: nat, inner: set<seq<nat>>) returns (paths: set<seq<nat>>)
    ensures forall p :: p in paths <==> p != [] && p[0] == k && p[1..] in inner
    ensures |paths| == |inner|
  {
    if inner == {} {
      paths := {};
    } else {
      var q :| q in inner;
      var rest := Prefixed(k, inner - {q});
      assert ([k] + q)[1..] == q;
      paths := rest + {[k] + q};
      forall p ensures p in paths <==> p != [] && p[0] == k && p[1..] in inner {
        if p != [] && p[0] == k { assert p == [k] + p[1..]; }
      }
    }
  }

  lemma {:induction false} PositionsOf(lower: Text -> Text, v: Value) returns (paths: set<seq<nat>>)
    ensures forall p :: p in paths <==> ReplacedAt(lower, v, p)
    ensures |paths| == SensitiveLeaves(lower, v)
    decreases v, 1
  {
    hide HoldsFragment, Sensitive;
    match v
    case Obj(fields) => paths := FieldPositions(lower, fields, 0); assert fields[0..] == fields;
    case Arr(items) => paths := ItemPositions(lower, items, 0); assert items[0..] == items;
    case Str(s) => SensitiveIff(lower, s); paths := if Sensitive(lower, s) then {[]} else {};
    case _ => paths := {};
  }

  lemma {:induction false} FieldPositions(lower: Text -> Text, fields: seq<Field>, k: nat) returns (paths: set<seq<nat>>)
    requires k <= |fields|
    ensures forall p :: p in paths <==> p != [] && k <= p[0] && ReplacedAt(lower, Obj(fields), p)
    ensures |paths| == SensitiveInFields(lower, fields[k..])
    decreases fields, 0, |fields| - k
  {
    hide HoldsFragment, SensitiveKey, SensitiveLeaves;
    if k == |fields| {
      paths := {};
    } else {
      assert fields[k..][1..] == fields[k + 1..];
      var rest := FieldPositions(lower, fields, k + 1);
      var here: set<seq<nat>>;
      SensitiveIff(lower, fields[k].key);
      if SensitiveKey(lower, fields[k].key) {
        here := {[k]};
        assert forall p: seq<nat> :: p != [] && p[0] == k && |p| == 1 ==> p == [k];
      } else {
        var inner := PositionsOf(lower, fields[k].value);
        here := Prefixed(k, inner);
      }
      paths := here + rest;
    }
  }

  lemma {:induction false} ItemPositions(lower: Text -> Text, items: seq<Value>, k: nat) returns (paths: set<seq<nat>>)
    requires k <= |items|
    ensures forall p :: p in paths <==> p != [] && k <= p[0] && ReplacedAt(lower, Arr(items), p)
    ensures |paths| == SensitiveInItems(lower, items[k..])
    decreases items, 0, |items| - k
  {
    hide HoldsFragment, SensitiveLeaves;
    if k == |items| {
      paths := {};
    } else {
      assert items[k..][1..] == items[k + 1..];
      var rest := ItemPositions(lower, items, k + 1);
      var inner := PositionsOf(lower, items[k]);
      var here := Prefixed(k, inner);
      paths := here + rest;
    }
  }

  /** Main theorem: the count is the number of positions at which something is replaced. */
  lemma {:induction false} CountIsPositions(lower: Text -> Text, v: Value) returns (paths: set<seq<nat>>)
    requires KeepsPlaceholder(lower) && Dictionaries(v)
    ensures forall p :: p in paths <==> ReplacedAt(lower, v, p)
    ensures CountReplaced(lower, v, Redact(lower, v)) == |paths|
  {
    CountIsSensitiveLeaves(lower, v);
    paths := PositionsOf(lower, v);
  }
}
