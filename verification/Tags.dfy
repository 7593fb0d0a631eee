/** Event tags: the validator of accepted events, the bounded projection for audit responses and
    the response validator that must accept what the projection returns.
  */
module Tags {
  import opened Order
  import opened Json
  import opened Redaction

  const EVENT_TAG_MAX_KEY := 64
  const EVENT_TAG_MAX_ENTRIES := 128
  const EVENT_TAG_MAX_BYTES := 16_384
  const AUDIT_TAG_MAX_ENTRIES := 32
  const AUDIT_TAG_MAX_BYTES := 4_096

  datatype Tag = Tag(key: Text, value: Text)

  predicate TagLess(a: Tag, b: Tag) {
    Less(a.key, b.key)
  }

  /** A dictionary of tags, in insertion order. */
  ghost predicate TagMap(tags: seq<Tag>) {
    forall i, j :: 0 <= i < j < |tags| ==> tags[i].key != tags[j].key
  }

  function AsFields(tags: seq<Tag>): seq<Field> {
    seq(|tags|, i requires 0 <= i < |tags| => Field(tags[i].key, Str(tags[i].value)))
  }

  /** The length of the canonical JSON of a tag map. */
  function TagBytes(tags: seq<Tag>): nat {
    Size(Utf8, Obj(AsFields(tags)))
  }

  function PairBytes(t: Tag): nat {
    FieldSize(Utf8, Field(t.key, Str(t.value)))
  }

  predicate KeyStart(c: CodePoint) {
    97 <= c <= 122
  }

  predicate KeyChar(c: CodePoint) {
    97 <= c <= 122 || 48 <= c <= 57 || c == 95 || c == 46 || c == 45
  }

  /** The pattern `[a-z][a-z0-9_.-]*` and the length bound. */
  predicate KeyValid(key: Text) {
    key != [] && KeyStart(key[0]) && (forall c :: c in key ==> KeyChar(c)) && |key| <= EVENT_TAG_MAX_KEY
  }

  predicate ValueValid(value: Text) {
    1 <= |value| <= 256 && 0 !in value && Encodable(value)
  }

  /** The shape of a key, character by character. */
  lemma {:induction false} KeyPattern(key: Text)
    ensures KeyValid(key) <==>
              && 1 <= |key| <= 64 && 'a' as nat <= key[0] <= 'z' as nat
              && forall i :: 0 <= i < |key| ==>
                   || 'a' as nat <= key[i] <= 'z' as nat || '0' as nat <= key[i] <= '9' as nat
                   || key[i] == '_' as nat || key[i] == '.' as nat || key[i] == '-' as nat
  {
    if KeyValid(key) {
      forall i | 0 <= i < |key| ensures KeyChar(key[i]) { assert key[i] in key; }
    }
  }

  predicate PairValid(t: Tag) {
    KeyValid(t.key) && ValueValid(t.value)
  }

  /** The bounds on a value; half of a surrogate pair cannot be encoded. */
  lemma {:induction false} ValuePattern(value: Text)
    ensures ValueValid(value) <==>
              1 <= |value| <= 256 && forall i :: 0 <= i < |value| ==> value[i] != 0 && !(0xD800 <= value[i] < 0xE000)
  {
    if ValueValid(value) {
      forall i | 0 <= i < |value| ensures value[i] != 0 && !IsSurrogate(value[i]) { assert value[i] in value; }
    }
  }

  /** What an accepted event map is, without any accounting. */
  ghost predicate EventTags(tags: seq<Tag>) {
    && |tags| <= EVENT_TAG_MAX_ENTRIES
    && (forall t :: t in tags ==> PairValid(t))
    && TagBytes(tags) <= EVENT_TAG_MAX_BYTES
  }

  // ---------------------------------------------------------------------------------------
  // Sizes
  // ---------------------------------------------------------------------------------------

  lemma {:induction false} BytesOfNone()
    ensures TagBytes([]) == 2
  {
    ObjectSize(Utf8, []);
    assert AsFields([]) == [];
  }

  lemma {:induction false} BytesSnoc(tags: seq<Tag>, t: Tag)
    ensures TagBytes(tags + [t]) == TagBytes(tags) + PairBytes(t) + (if tags == [] then 0 else 1)
  {
    hide FieldSize;
    var f := Field(t.key, Str(t.value));
    ObjectSize(Utf8, AsFields(tags));
    ObjectSize(Utf8, AsFields(tags) + [f]);
    assert AsFields(tags + [t]) == AsFields(tags) + [f];
    FieldSizesSplit(Utf8, AsFields(tags), [f]);
    assert FieldSizes(Utf8, [f]) == FieldSize(Utf8, f) + FieldSizes(Utf8, [f][1..]);
  }

  lemma {:induction false} BytesGrow(tags: seq<Tag>, n: nat)
    requires n <= |tags|
    ensures TagBytes(tags[..n]) <= TagBytes(tags)
    decreases |tags| - n
  {
    hide TagBytes, PairBytes;
    if n == |tags| {
      assert tags[..n] == tags;
    } else {
      BytesSnoc(tags[..n], tags[n]);
      assert tags[..n] + [tags[n]] == tags[..n + 1];
      BytesGrow(tags, n + 1);
    }
  }

  /** Sorting tags by key does not change their length. */
  lemma {:induction false} BytesOfSorted(tags: seq<Tag>, sorted: seq<Tag>)
    requires TagMap(tags) && TagMap(sorted) && forall t :: t in sorted <==> t in tags
    ensures TagBytes(sorted) == TagBytes(tags)
  {
    forall f ensures f in AsFields(sorted) <==> f in AsFields(tags) {
      if f in AsFields(sorted) {
        var i :| 0 <= i < |sorted| && AsFields(sorted)[i] == f;
        assert sorted[i] in tags;
        var j :| 0 <= j < |tags| && tags[j] == sorted[i];
        assert AsFields(tags)[j] == f;
      }
      if f in AsFields(tags) {
        var i :| 0 <= i < |tags| && AsFields(tags)[i] == f;
        assert tags[i] in sorted;
        var j :| 0 <= j < |sorted| && sorted[j] == tags[i];
        assert AsFields(sorted)[j] == f;
      }
    }
    CanonicalBytes(Utf8, AsFields(tags), AsFields(sorted));
  }

  /** A pair of valid shape is far below the event limit: at most 64 + 256 * 6 characters and
      five bytes of punctuation. */
  lemma {:induction false} PairBound(t: Tag)
    requires PairValid(t)
    ensures 8 <= TagBytes([t]) <= 1_607
    ensures TagBytes([t]) == PairBytes(t) + 2
  {
    hide Chars;
    PlainChars(Utf8, t.key) by { assert forall c :: c in t.key ==> KeyChar(c); }
    CharsBound(Utf8, t.value);
    BytesOfNone();
    BytesSnoc([], t);
    assert [] + [t] == [t];
  }

  // ---------------------------------------------------------------------------------------
  // Validation of accepted events
  // ---------------------------------------------------------------------------------------

  lemma {:induction false} TagLessOrder()
    ensures StrictOrder(TagLess)
  {
    LessIsStrictTotal();
  }

  lemma {:induction false} SortedTags(tags: seq<Tag>)
    requires TagMap(tags)
    ensures SortedBy(TagLess, Sort(TagLess, tags)) && TagMap(Sort(TagLess, tags))
    ensures forall t :: t in Sort(TagLess, tags) <==> t in tags
    ensures |Sort(TagLess, tags)| == |tags|
  {
    TagLessOrder();
    LessIsStrictTotal();
    forall i, j | 0 <= i < j < |tags| ensures TagLess(tags[i], tags[j]) || TagLess(tags[j], tags[i]) {
      assert tags[i].key != tags[j].key;
    }
    SortSorts(TagLess, tags);
    var s := Sort(TagLess, tags);
    forall i, j | 0 <= i < j < |s| ensures s[i].key != s[j].key {
      assert TagLess(s[i], s[j]);
      LessIrreflexive(s[i].key);
    }
  }

  /** Walks the keys in order with a running byte count and stops at the first failure. */
  method ValidateEventTags(tags: seq<Tag>) returns (ok: bool)
    requires TagMap(tags)
    ensures ok <==> EventTags(tags)
    ensures ok <==> |tags| <= 128 && TagBytes(tags) <= 16_384 && forall t :: t in tags ==> PairValid(t)
  {
    hide TagBytes, PairBytes, PairValid, Sort, Less, TagMap;
    if |tags| > EVENT_TAG_MAX_ENTRIES { return false; }
    var keys := Sort(TagLess, tags);
    SortedTags(tags);
    BytesOfSorted(tags, keys);
    BytesOfNone();
    var encodedBytes := 2;
    for index := 0 to |keys|
      invariant encodedBytes == TagBytes(keys[..index]) <= EVENT_TAG_MAX_BYTES
      invariant forall i :: 0 <= i < index ==> PairValid(keys[i])
    {
      var t := keys[index];
      assert t in tags;
      assert keys[..index] + [t] == keys[..index + 1];
      BytesSnoc(keys[..index], t);
      BytesGrow(keys, index + 1);
      if !PairValid(t) { return false; }
      encodedBytes := encodedBytes + PairBytes(t) + (if index != 0 then 1 else 0);
      if encodedBytes > EVENT_TAG_MAX_BYTES { return false; }
    }
    assert keys[..|keys|] == keys;
    ok := true;
    forall t | t in tags ensures PairValid(t) { assert t in keys; }
  }

  // ---------------------------------------------------------------------------------------
  // The projection
  // ---------------------------------------------------------------------------------------

  datatype Reason = SizeLimit | InvalidLegacyShape | SensitiveKeyReason

  function Safe(lower: Text -> Text, t: Tag): Tag {
    if Sensitive(lower, t.value) then Tag(t.key, PLACEHOLDER) else t
  }

  predicate Admissible(lower: Text -> Text, t: Tag) {
    PairValid(t) && !Sensitive(lower, t.key)
  }

  /** The kept tags whose keys come before `key`. */
  function Below(kept: seq<Tag>, key: Text): seq<Tag> {
    if kept == [] || !Less(kept[0].key, key) then [] else [kept[0]] + Below(kept[1..], key)
  }

  /** There is room for one more tag behind those already kept. */
  predicate Fits(kept: seq<Tag>, t: Tag) {
    |kept| < AUDIT_TAG_MAX_ENTRIES && TagBytes(kept + [t]) <= AUDIT_TAG_MAX_BYTES
  }

  /** The greedy choice, read off the result: a tag is kept exactly when it is admissible and
      fits behind the kept tags that precede it. */
  ghost predicate GreedyChoice(lower: Text -> Text, tags: seq<Tag>, kept: seq<Tag>) {
    && SortedBy(TagLess, kept)
    && (forall k :: k in kept ==> exists t :: t in tags && k == Safe(lower, t))
    && (forall t :: t in tags ==>
          (Safe(lower, t) in kept <==> Admissible(lower, t) && Fits(Below(kept, t.key), Safe(lower, t))))
  }

  /** The omission reasons, read off the input and the result. */
  ghost predicate ReasonsFor(lower: Text -> Text, tags: seq<Tag>, invalidShape: bool, sizeLimit: bool,
                             kept: seq<Tag>, reasons: set<Reason>) {
    && (InvalidLegacyShape in reasons <==> invalidShape || exists t :: t in tags && !PairValid(t))
    && (SensitiveKeyReason in reasons <==> exists t :: t in tags && PairValid(t) && Sensitive(lower, t.key))
    && (SizeLimit in reasons <==> sizeLimit || exists t :: t in tags && Admissible(lower, t) && Safe(lower, t) !in kept)
  }

  /** What the response model demands of projected tags. */
  ghost predicate ResponseTags(tags: seq<Tag>) {
    |tags| <= AUDIT_TAG_MAX_ENTRIES && EventTags(tags) && TagBytes(tags) <= AUDIT_TAG_MAX_BYTES
  }

  lemma {:induction false} BelowAll(kept: seq<Tag>, key: Text)
    requires forall k :: k in kept ==> Less(k.key, key)
    ensures Below(kept, key) == kept
  {
    if kept != [] {
      assert kept[0] in kept && forall k :: k in kept[1..] ==> k in kept;
      BelowAll(kept[1..], key);
    }
  }

  /** Keeping a later tag does not change which kept tags precede an earlier key. */
  lemma {:induction false} BelowSnoc(kept: seq<Tag>, t: Tag, key: Text)
    requires !Less(t.key, key)
    ensures Below(kept + [t], key) == Below(kept, key)
  {
    if kept != [] && Less(kept[0].key, key) {
      BelowSnoc(kept[1..], t, key);
      assert (kept + [t])[1..] == kept[1..] + [t];
    }
  }

  lemma {:induction false} PlaceholderValid()
    ensures ValueValid(PLACEHOLDER)
  {
    assert forall i :: 0 <= i < |PLACEHOLDER| ==> PLACEHOLDER[i] == "[redacted]"[i] as CodePoint;
    assert forall c :: c in PLACEHOLDER ==> 0 < c < 128;
  }

  /** One step of the walk: the tags before position `i` are decided. */
  ghost predicate Decided(lower: Text -> Text, sorted: seq<Tag>, i: nat, kept: seq<Tag>)
    requires i <= |sorted|
  {
    && SortedBy(TagLess, kept)
    && (forall k :: k in kept ==> exists t :: t in sorted[..i] && k == Safe(lower, t))
    && (forall t :: t in sorted[..i] ==>
          (Safe(lower, t) in kept <==> Admissible(lower, t) && Fits(Below(kept, t.key), Safe(lower, t))))
  }

  /** Deciding the next tag: what is kept so far is exactly what precedes it. */
  lemma {:induction false} DecideNext(lower: Text -> Text, sorted: seq<Tag>, i: nat, kept: seq<Tag>, keep: bool)
    requires SortedBy(TagLess, sorted) && i < |sorted| && Decided(lower, sorted, i, kept)
    requires keep <==> Admissible(lower, sorted[i]) && Fits(kept, Safe(lower, sorted[i]))
    ensures Decided(lower, sorted, i + 1, if keep then kept + [Safe(lower, sorted[i])] else kept)
    ensures forall k :: k in kept ==> Less(k.key, sorted[i].key)
  {
    hide Sensitive, Fits, Admissible, Safe, Below;
    var t := sorted[i];
    assert sorted[..i + 1] == sorted[..i] + [t];
    SafeKey(lower, t);
    KeptPrecede(lower, sorted, i, kept);
    BelowAll(kept, t.key);
    var next := if keep then kept + [Safe(lower, t)] else kept;
    EarlierBelow(lower, sorted, i, kept, next);
    forall u | u in sorted[..i + 1]
      ensures Safe(lower, u) in next <==> Admissible(lower, u) && Fits(Below(next, u.key), Safe(lower, u))
    {
      if u in sorted[..i] {
        assert Safe(lower, u) in next <==> Safe(lower, u) in kept;
      } else {
        BelowSnoc(kept, Safe(lower, t), t.key) by { LessIrreflexive(t.key); }
      }
    }
    NextFromTags(lower, sorted[..i], t, kept, next);
  }

  lemma {:induction false} NextFromTags(lower: Text -> Text, tags: seq<Tag>, t: Tag, kept: seq<Tag>, next: seq<Tag>)
    requires forall k :: k in kept ==> exists u :: u in tags && k == Safe(lower, u)
    requires next == kept || next == kept + [Safe(lower, t)]
    ensures forall k :: k in next ==> exists u :: u in tags + [t] && k == Safe(lower, u)
  {
    hide Safe;
    forall k | k in next ensures exists u :: u in tags + [t] && k == Safe(lower, u) {
      if k in kept {
        var u :| u in tags && k == Safe(lower, u);
        assert u in tags + [t];
      } else {
        assert t in tags + [t];
      }
    }
  }

  /** What is kept so far has smaller keys than the next tag. */
  lemma {:induction false} KeptPrecede(lower: Text -> Text, sorted: seq<Tag>, i: nat, kept: seq<Tag>)
    requires SortedBy(TagLess, sorted) && i < |sorted|
    requires forall k :: k in kept ==> exists t :: t in sorted[..i] && k == Safe(lower, t)
    ensures forall k :: k in kept ==> Less(k.key, sorted[i].key)
    ensures Safe(lower, sorted[i]) !in kept
  {
    hide Safe;
    SafeKey(lower, sorted[i]);
    LessIrreflexive(sorted[i].key);
    forall k | k in kept ensures Less(k.key, sorted[i].key) {
      var u :| u in sorted[..i] && k == Safe(lower, u);
      SafeKey(lower, u);
      var j :| 0 <= j < i && sorted[j] == u;
      assert TagLess(sorted[j], sorted[i]);
    }
  }

  /** Keeping the next tag changes nothing below earlier keys. */
  lemma {:induction false} EarlierBelow(lower: Text -> Text, sorted: seq<Tag>, i: nat, kept: seq<Tag>, next: seq<Tag>)
    requires SortedBy(TagLess, sorted) && i < |sorted|
    requires next == kept || next == kept + [Safe(lower, sorted[i])]
    ensures forall u :: u in sorted[..i] ==> Below(next, u.key) == Below(kept, u.key) && Safe(lower, u) != Safe(lower, sorted[i])
  {
    hide Safe, Below;
    forall u | u in sorted[..i] ensures Below(next, u.key) == Below(kept, u.key) && Safe(lower, u) != Safe(lower, sorted[i]) {
      var j :| 0 <= j < i && sorted[j] == u;
      assert TagLess(sorted[j], sorted[i]);
      LaterTag(lower, u, sorted[i], kept);
    }
  }

  lemma {:induction false} LaterTag(lower: Text -> Text, u: Tag, t: Tag, kept: seq<Tag>)
    requires TagLess(u, t)
    ensures Below(kept + [Safe(lower, t)], u.key) == Below(kept, u.key) && Safe(lower, u) != Safe(lower, t)
  {
    hide Safe, Below;
    SafeKey(lower, u);
    SafeKey(lower, t);
    LessIrreflexive(u.key);
    if Less(t.key, u.key) { LessTransitive(u.key, t.key, u.key); }
    BelowSnoc(kept, Safe(lower, t), u.key);
  }

  lemma {:induction false} DecidedIsGreedy(lower: Text -> Text, tags: seq<Tag>, sorted: seq<Tag>, kept: seq<Tag>)
    requires Decided(lower, sorted, |sorted|, kept) && forall t :: t in sorted <==> t in tags
    ensures GreedyChoice(lower, tags, kept)
  {
    hide Sensitive, Fits, Admissible;
    assert sorted[..|sorted|] == sorted;
  }

  /** Keeps valid tags in key order within the response budget; a tag that does not fit does not
      stop later ones. */
  method ProjectTags(lower: Text -> Text, tags: seq<Tag>, invalidShape: bool, sizeLimit: bool)
    returns (kept: seq<Tag>, reasons: set<Reason>)
    requires TagMap(tags) && KeepsPlaceholder(lower)
    ensures GreedyChoice(lower, tags, kept)
    ensures ReasonsFor(lower, tags, invalidShape, sizeLimit, kept, reasons)
    ensures ResponseTags(kept) && |kept| <= 32 && TagBytes(kept) <= 4_096
    ensures forall k :: k in kept ==> !HoldsFragment(lower(k.key)) && !HoldsFragment(lower(k.value))
    ensures forall k :: k in kept ==> exists t :: t in tags && Shown(lower, t, k)
    ensures SensitiveKeyReason in reasons <==> exists t :: t in tags && PairValid(t) && HoldsFragment(lower(t.key))
    ensures forall t :: t in tags && PairValid(t) && !HoldsFragment(lower(t.key)) && (forall k :: k in kept ==> k.key != t.key) ==>
              |Below(kept, t.key)| >= 32 || exists k :: Shown(lower, t, k) && TagBytes(Below(kept, t.key) + [k]) > 4_096
  {
    hide TagBytes, PairBytes, PairValid, Sensitive, Below, Decided, Safe, Admissible, Fits, ReasonsFor, GreedyChoice;
    hide HoldsFragment, Shown;
    reasons := {};
    if invalidShape { reasons := reasons + {InvalidLegacyShape}; }
    if sizeLimit { reasons := reasons + {SizeLimit}; }
    var sorted := Sort(TagLess, tags);
    SortedTags(tags);
    BytesOfNone();
    kept := [];
    var encodedBytes := 2;
    NothingDecided(lower, sorted, invalidShape, sizeLimit, reasons);
    for i := 0 to |sorted|
      invariant Decided(lower, sorted, i, kept)
      invariant encodedBytes == TagBytes(kept) <= AUDIT_TAG_MAX_BYTES && |kept| <= AUDIT_TAG_MAX_ENTRIES
      invariant ReasonsFor(lower, sorted[..i], invalidShape, sizeLimit, kept, reasons)
      invariant forall k :: k in kept ==> PairValid(k) && !Sensitive(lower, k.key) && !Sensitive(lower, k.value)
    {
      var t := sorted[i];
      ghost var before, past := kept, reasons;
      SafeTag(lower, t);
      Decision(lower, kept, t);
      DecideNext(lower, sorted, i, kept, Admissible(lower, t) && Fits(kept, Safe(lower, t)));
      var valid := ValidateOne(t);
      if !valid {
        reasons := reasons + {InvalidLegacyShape};
      } else if Sensitive(lower, t.key) {
        reasons := reasons + {SensitiveKeyReason};
      } else if |kept| >= AUDIT_TAG_MAX_ENTRIES {
        reasons := reasons + {SizeLimit};
      } else {
        var safe := Safe(lower, t);
        var additional := PairBytes(safe) + if kept == [] then 0 else 1;
        if encodedBytes + additional > AUDIT_TAG_MAX_BYTES {
          reasons := reasons + {SizeLimit};
        } else {
          kept := kept + [safe];
          encodedBytes := encodedBytes + additional;
        }
      }
      ReasonsSnoc(lower, sorted, i, invalidShape, sizeLimit, before, past, kept, reasons);
    }
    DecidedIsGreedy(lower, tags, sorted, kept);
    ReasonsOfSorted(lower, tags, sorted, invalidShape, sizeLimit, kept, reasons);
    KeptIsShown(lower, tags, kept);
    SensitiveReason(lower, tags, invalidShape, sizeLimit, kept, reasons);
    LeftOut(lower, tags, kept);
  }

  /** A valid tag with a harmless key is left out only where the kept tags before it leave no room. */
  lemma {:induction false} LeftOut(lower: Text -> Text, tags: seq<Tag>, kept: seq<Tag>)
    requires GreedyChoice(lower, tags, kept)
    ensures forall t :: t in tags && PairValid(t) && !HoldsFragment(lower(t.key)) && (forall k :: k in kept ==> k.key != t.key) ==>
              |Below(kept, t.key)| >= 32 || exists k :: Shown(lower, t, k) && TagBytes(Below(kept, t.key) + [k]) > 4_096
  {
    hide HoldsFragment, Sensitive, TagBytes, Below, PairValid;
    forall t | t in tags && PairValid(t) && !HoldsFragment(lower(t.key)) && (forall k :: k in kept ==> k.key != t.key)
      ensures |Below(kept, t.key)| >= 32 || exists k :: Shown(lower, t, k) && TagBytes(Below(kept, t.key) + [k]) > 4_096
    {
      SensitiveIff(lower, t.key);
      SensitiveIff(lower, t.value);
      SafeKey(lower, t);
      assert Safe(lower, t) !in kept && Shown(lower, t, Safe(lower, t));
    }
  }

  /** How a tag is shown: with the placeholder for a value that holds a fragment. */
  ghost predicate Shown(lower: Text -> Text, given: Tag, shown: Tag) {
    shown.key == given.key && shown.value == if HoldsFragment(lower(given.value)) then Lit("[redacted]") else given.value
  }

  lemma {:induction false} KeptIsShown(lower: Text -> Text, tags: seq<Tag>, kept: seq<Tag>)
    requires GreedyChoice(lower, tags, kept)
    requires forall k :: k in kept ==> PairValid(k) && !Sensitive(lower, k.key) && !Sensitive(lower, k.value)
    ensures forall k :: k in kept ==> !HoldsFragment(lower(k.key)) && !HoldsFragment(lower(k.value))
    ensures forall k :: k in kept ==> exists t :: t in tags && Shown(lower, t, k)
  {
    hide Sensitive, HoldsFragment, Fits, Admissible, PairValid;
    forall k | k in kept
      ensures !HoldsFragment(lower(k.key)) && !HoldsFragment(lower(k.value))
      ensures exists t :: t in tags && Shown(lower, t, k)
    {
      SensitiveIff(lower, k.key);
      SensitiveIff(lower, k.value);
      var t :| t in tags && k == Safe(lower, t);
      SensitiveIff(lower, t.value);
      assert Shown(lower, t, k);
    }
  }

  lemma {:induction false} SensitiveReason(lower: Text -> Text, tags: seq<Tag>, invalidShape: bool, sizeLimit: bool,
                                           kept: seq<Tag>, reasons: set<Reason>)
    requires ReasonsFor(lower, tags, invalidShape, sizeLimit, kept, reasons)
    ensures SensitiveKeyReason in reasons <==> exists t :: t in tags && PairValid(t) && HoldsFragment(lower(t.key))
  {
    hide Sensitive, HoldsFragment, PairValid, Admissible, Safe;
    forall t: Tag { SensitiveIff(lower, t.key); }
  }

  /** What the branches of the walk test. */
  lemma {:induction false} Decision(lower: Text -> Text, kept: seq<Tag>, t: Tag)
    ensures Admissible(lower, t) <==> PairValid(t) && !Sensitive(lower, t.key)
    ensures TagBytes(kept + [Safe(lower, t)]) ==
            TagBytes(kept) + PairBytes(Safe(lower, t)) + (if kept == [] then 0 else 1)
    ensures Fits(kept, Safe(lower, t)) <==>
            |kept| < AUDIT_TAG_MAX_ENTRIES
            && TagBytes(kept) + PairBytes(Safe(lower, t)) + (if kept == [] then 0 else 1) <= AUDIT_TAG_MAX_BYTES
  {
    hide TagBytes, PairBytes, Sensitive, PairValid, Safe;
    BytesSnoc(kept, Safe(lower, t));
  }

  lemma {:induction false} ReasonsOfSorted(lower: Text -> Text, tags: seq<Tag>, sorted: seq<Tag>, invalidShape: bool,
                                           sizeLimit: bool, kept: seq<Tag>, reasons: set<Reason>)
    requires ReasonsFor(lower, sorted[..|sorted|], invalidShape, sizeLimit, kept, reasons)
    requires forall t :: t in sorted <==> t in tags
    ensures ReasonsFor(lower, tags, invalidShape, sizeLimit, kept, reasons)
  {
    hide Sensitive, PairValid, Safe, Admissible;
    assert sorted[..|sorted|] == sorted;
  }

  /** `validate_event_tags({key: value})` */
  method ValidateOne(t: Tag) returns (ok: bool)
    ensures ok <==> PairValid(t)
  {
    ok := ValidateEventTags([t]);
    if PairValid(t) { PairBound(t); }
    assert t in [t];
  }

  lemma {:induction false} SafeTag(lower: Text -> Text, t: Tag)
    requires KeepsPlaceholder(lower)
    ensures Safe(lower, t).key == t.key && !Sensitive(lower, Safe(lower, t).value)
    ensures PairValid(t) ==> PairValid(Safe(lower, t))
  {
    hide Sensitive;
    PlaceholderIsClean(lower);
    PlaceholderValid();
  }

  lemma {:induction false} NothingDecided(lower: Text -> Text, sorted: seq<Tag>, invalidShape: bool, sizeLimit: bool,
                                          reasons: set<Reason>)
    requires reasons == (if invalidShape then {InvalidLegacyShape} else {}) + (if sizeLimit then {SizeLimit} else {})
    ensures Decided(lower, sorted, 0, [])
    ensures ReasonsFor(lower, sorted[..0], invalidShape, sizeLimit, [], reasons)
  {}

  lemma {:induction false} ReasonsSnoc(lower: Text -> Text, sorted: seq<Tag>, i: nat, invalidShape: bool, sizeLimit: bool,
                                       before: seq<Tag>, past: set<Reason>, kept: seq<Tag>, reasons: set<Reason>)
    requires SortedBy(TagLess, sorted) && i < |sorted|
    requires ReasonsFor(lower, sorted[..i], invalidShape, sizeLimit, before, past)
    requires var t := sorted[i];
             && (kept == before || (kept == before + [Safe(lower, t)] && Admissible(lower, t)))
             && (forall k :: k in before ==> Less(k.key, t.key))
             && reasons == past + (if !PairValid(t) then {InvalidLegacyShape}
                                   else if Sensitive(lower, t.key) then {SensitiveKeyReason}
                                   else if kept == before then {SizeLimit} else {})
    ensures ReasonsFor(lower, sorted[..i + 1], invalidShape, sizeLimit, kept, reasons)
  {
    hide Sensitive, PairValid, Safe, ReasonsFor, Admissible;
    LessIrreflexive(sorted[i].key);
    var t := sorted[i];
    SafeKey(lower, t);
    assert sorted[..i + 1] == sorted[..i] + [t];
    EarlierKeep(lower, sorted, i, before, kept);
    ReasonsAdd(lower, sorted[..i], t, invalidShape, sizeLimit, before, past, kept, reasons);
  }

  /** Keeping the next tag does not change whether an earlier one is kept. */
  lemma {:induction false} EarlierKeep(lower: Text -> Text, sorted: seq<Tag>, i: nat, before: seq<Tag>, kept: seq<Tag>)
    requires SortedBy(TagLess, sorted) && i < |sorted|
    requires kept == before || kept == before + [Safe(lower, sorted[i])]
    ensures forall u :: u in sorted[..i] ==> (Safe(lower, u) in kept <==> Safe(lower, u) in before)
  {
    hide Safe;
    LessIsStrictTotal();
    SafeKey(lower, sorted[i]);
    forall u | u in sorted[..i] ensures Safe(lower, u) in kept <==> Safe(lower, u) in before {
      SafeKey(lower, u);
      var j :| 0 <= j < i && sorted[j] == u;
      assert TagLess(sorted[j], sorted[i]);
    }
  }

  lemma {:induction false} ReasonsAdd(lower: Text -> Text, tags: seq<Tag>, t: Tag, invalidShape: bool, sizeLimit: bool,
                                      before: seq<Tag>, past: set<Reason>, kept: seq<Tag>, reasons: set<Reason>)
    requires ReasonsFor(lower, tags, invalidShape, sizeLimit, before, past)
    requires forall u :: u in tags ==> (Safe(lower, u) in kept <==> Safe(lower, u) in before)
    requires kept == before ==> Safe(lower, t) !in before
    requires kept == before || (kept == before + [Safe(lower, t)] && Admissible(lower, t))
    requires reasons == past + (if !PairValid(t) then {InvalidLegacyShape}
                                else if Sensitive(lower, t.key) then {SensitiveKeyReason}
                                else if kept == before then {SizeLimit} else {})
    ensures ReasonsFor(lower, tags + [t], invalidShape, sizeLimit, kept, reasons)
  {
    hide Sensitive, PairValid, Safe;
    var all := tags + [t];
    assert t in all && forall u :: u in all <==> u in tags || u == t;
    assert InvalidLegacyShape in reasons <==> invalidShape || exists u :: u in all && !PairValid(u);
    assert SensitiveKeyReason in reasons <==> exists u :: u in all && PairValid(u) && Sensitive(lower, u.key);
    assert SizeLimit in reasons <==> sizeLimit || exists u :: u in all && Admissible(lower, u) && Safe(lower, u) !in kept;
  }

  // ---------------------------------------------------------------------------------------
  // What the projection says
  // ---------------------------------------------------------------------------------------

  ghost predicate EveryKeyKept(tags: seq<Tag>, kept: seq<Tag>) {
    forall t :: t in tags ==> exists k :: k in kept && k.key == t.key
  }

  /** Main theorem: with no flag from the query, no reason is given exactly when every key is kept. */
  lemma {:induction false} NoReasonIffAllKept(lower: Text -> Text, tags: seq<Tag>, kept: seq<Tag>, reasons: set<Reason>)
    requires TagMap(tags) && GreedyChoice(lower, tags, kept) && ReasonsFor(lower, tags, false, false, kept, reasons)
    ensures reasons == {} <==> EveryKeyKept(tags, kept)
  {
    hide *;
    if reasons == {} { NoReasonKeepsAll(lower, tags, kept); }
    if EveryKeyKept(tags, kept) {
      KeysKept(lower, tags, kept);
      AllKeptNoReason(lower, tags, kept, reasons);
    }
  }

  lemma {:induction false} NoReasonKeepsAll(lower: Text -> Text, tags: seq<Tag>, kept: seq<Tag>)
    requires GreedyChoice(lower, tags, kept) && ReasonsFor(lower, tags, false, false, kept, {})
    ensures EveryKeyKept(tags, kept)
  {
    hide Sensitive, PairValid, Fits, Below, Safe;
    forall t | t in tags ensures exists k :: k in kept && k.key == t.key {
      SafeKey(lower, t);
      assert Safe(lower, t) in kept;
    }
  }

  lemma {:induction false} KeysKept(lower: Text -> Text, tags: seq<Tag>, kept: seq<Tag>)
    requires TagMap(tags) && GreedyChoice(lower, tags, kept) && EveryKeyKept(tags, kept)
    ensures forall t :: t in tags ==> Safe(lower, t) in kept
  {
    hide TagMap, GreedyChoice, Safe;
    forall t | t in tags ensures Safe(lower, t) in kept {
      var k :| k in kept && k.key == t.key;
      KeptUnderKey(lower, tags, kept, t, k);
    }
  }

  lemma {:induction false} SafeKey(lower: Text -> Text, t: Tag)
    ensures Safe(lower, t).key == t.key
  {}

  lemma {:induction false} KeptUnderKey(lower: Text -> Text, tags: seq<Tag>, kept: seq<Tag>, t: Tag, k: Tag)
    requires TagMap(tags) && GreedyChoice(lower, tags, kept) && t in tags && k in kept && k.key == t.key
    ensures Safe(lower, t) == k
  {
    hide Sensitive, Fits, Admissible;
    var u :| u in tags && k == Safe(lower, u);
    var i :| 0 <= i < |tags| && tags[i] == u;
    var j :| 0 <= j < |tags| && tags[j] == t;
    assert tags[i].key == tags[j].key;
  }

  lemma {:induction false} AllKeptNoReason(lower: Text -> Text, tags: seq<Tag>, kept: seq<Tag>, reasons: set<Reason>)
    requires GreedyChoice(lower, tags, kept) && ReasonsFor(lower, tags, false, false, kept, reasons)
    requires forall t :: t in tags ==> Safe(lower, t) in kept
    ensures reasons == {}
  {
    hide Sensitive, PairValid, Fits, Below, Safe;
    assert InvalidLegacyShape !in reasons && SensitiveKeyReason !in reasons && SizeLimit !in reasons;
    forall r ensures r !in reasons {
      match r
      case SizeLimit =>
      case InvalidLegacyShape =>
      case SensitiveKeyReason =>
    }
  }

  lemma {:induction false} NoneBelow(kept: seq<Tag>, key: Text)
    requires SortedBy(TagLess, kept) && kept != [] && !Less(kept[0].key, key)
    ensures forall k :: k in kept ==> !Less(k.key, key)
  {
    forall k | k in kept ensures !Less(k.key, key) {
      var i :| 0 <= i < |kept| && kept[i] == k;
      if i > 0 && Less(k.key, key) {
        assert TagLess(kept[0], kept[i]);
        LessTransitive(kept[0].key, k.key, key);
      }
    }
  }

  lemma {:induction false} BelowMembers(kept: seq<Tag>, key: Text)
    requires SortedBy(TagLess, kept)
    ensures SortedBy(TagLess, Below(kept, key))
    ensures forall k :: k in Below(kept, key) <==> k in kept && Less(k.key, key)
  {
    hide Less;
    if kept != [] {
      BelowMembers(kept[1..], key);
      assert kept == [kept[0]] + kept[1..];
      if !Less(kept[0].key, key) {
        NoneBelow(kept, key);
      } else {
        var rest := Below(kept[1..], key);
        forall i | 0 <= i < |rest| ensures TagLess(kept[0], rest[i]) { assert rest[i] in kept[1..]; }
      }
    }
  }

  lemma {:induction false} SameBelow(a: seq<Tag>, b: seq<Tag>, key: Text)
    requires SortedBy(TagLess, a) && SortedBy(TagLess, b)
    requires forall k: Tag :: Less(k.key, key) ==> (k in a <==> k in b)
    ensures Below(a, key) == Below(b, key)
  {
    TagLessOrder();
    BelowMembers(a, key);
    BelowMembers(b, key);
    SortedUnique(TagLess, Below(a, key), Below(b, key));
  }

  lemma {:induction false} GreedySame(lower: Text -> Text, tags: seq<Tag>, sorted: seq<Tag>, a: seq<Tag>, b: seq<Tag>, i: nat)
    requires SortedBy(TagLess, sorted) && (forall t :: t in sorted <==> t in tags) && i <= |sorted|
    requires GreedyChoice(lower, tags, a) && GreedyChoice(lower, tags, b)
    ensures forall t :: t in sorted[..i] ==> (Safe(lower, t) in a <==> Safe(lower, t) in b)
  {
    hide Sensitive, Fits, Admissible;
    LessIsStrictTotal();
    if i > 0 {
      GreedySame(lower, tags, sorted, a, b, i - 1);
      var t := sorted[i - 1];
      assert sorted[..i] == sorted[..i - 1] + [t];
      forall k: Tag | Less(k.key, t.key) ensures k in a <==> k in b {
        if k in a || k in b {
          var u :| u in tags && k == Safe(lower, u);
          var j :| 0 <= j < |sorted| && sorted[j] == u;
          assert forall m :: i - 1 < m < |sorted| ==> TagLess(sorted[i - 1], sorted[m]);
          assert j < i - 1 && u in sorted[..i - 1];
        }
      }
      SameBelow(a, b, t.key);
      assert t in tags;
    }
  }

  /** The greedy choice is determined by the input. */
  lemma {:induction false} GreedyUnique(lower: Text -> Text, tags: seq<Tag>, a: seq<Tag>, b: seq<Tag>)
    requires TagMap(tags) && GreedyChoice(lower, tags, a) && GreedyChoice(lower, tags, b)
    ensures a == b
  {
    hide Sensitive, Fits, Admissible, Safe;
    TagLessOrder();
    var sorted := Sort(TagLess, tags);
    SortedTags(tags);
    GreedySame(lower, tags, sorted, a, b, |sorted|);
    assert sorted[..|sorted|] == sorted;
    SortedUnique(TagLess, a, b);
  }
}
