/** Python strings as code point sequences, their order, and sorting.

    A Python `str` may hold lone surrogates, so a string is a sequence of code points rather
    than of Dafny characters. Strings compare by code point. `sorted` is stable.
  */
module Order {

  type CodePoint = c: nat | c < 0x11_0000

  type Text = seq<CodePoint>

  /** The text of an ASCII literal. */
  function Lit(s: string): (t: Text)
    requires forall c :: c in s ==> c < 128 as char
    ensures |t| == |s|
    ensures forall i :: 0 <= i < |s| ==> t[i] == s[i] as CodePoint
  {
    seq(|s|, i requires 0 <= i < |s| => assert s[i] in s; s[i] as CodePoint)
  }

  predicate Less(a: Text, b: Text) {
    b != [] && (a == [] || a[0] < b[0] || (a[0] == b[0] && Less(a[1..], b[1..])))
  }

  predicate OccursAt(text: Text, part: Text, i: nat) {
    i <= |text| - |part| && text[i..i + |part|] == part
  }

  /** `part in text` */
  predicate Contains(text: Text, part: Text) {
    exists i: nat :: i <= |text| && OccursAt(text, part, i)
  }

  /** The word stands at this position, letter by letter. */
  predicate SpelledAt(text: Text, i: nat, word: string) {
    i + |word| <= |text| && forall j :: 0 <= j < |word| ==> text[i + j] == word[j] as nat
  }

  ghost predicate Spells(text: Text, word: string) {
    exists i: nat :: SpelledAt(text, i, word)
  }

  lemma {:induction false} ContainsSpelled(text: Text, word: string)
    requires forall c :: c in word ==> c < 128 as char
    ensures Contains(text, Lit(word)) <==> Spells(text, word)
  {
    var part := Lit(word);
    if Contains(text, part) {
      var i: nat :| i <= |text| && OccursAt(text, part, i);
      forall j | 0 <= j < |word| ensures text[i + j] == word[j] as nat { assert text[i..i + |part|][j] == part[j]; }
      assert SpelledAt(text, i, word);
    }
    if Spells(text, word) {
      var i: nat :| SpelledAt(text, i, word);
      assert text[i..i + |part|] == part;
      assert OccursAt(text, part, i);
    }
  }

  /** Texts compare at the first position where they differ; a text comes before its continuations. */
  lemma {:induction false} LessIsLexicographic(a: Text, b: Text)
    ensures Less(a, b) <==>
            exists i: nat :: i <= |a| && i < |b| && a[..i] == b[..i] && (i == |a| || a[i] < b[i])
  {
    if Less(a, b) {
      if a != [] && a[0] == b[0] {
        LessIsLexicographic(a[1..], b[1..]);
        var i: nat :| i <= |a[1..]| && i < |b[1..]| && a[1..][..i] == b[1..][..i] && (i == |a[1..]| || a[1..][i] < b[1..][i]);
        assert a[..i + 1] == [a[0]] + a[1..][..i] && b[..i + 1] == [b[0]] + b[1..][..i];
      } else {
        assert a[..0] == b[..0];
      }
    }
    if i: nat :| i <= |a| && i < |b| && a[..i] == b[..i] && (i == |a| || a[i] < b[i]) {
      if i > 0 {
        assert a[0] == a[..i][0] && b[0] == b[..i][0];
        assert a[1..][..i - 1] == a[..i][1..] && b[1..][..i - 1] == b[..i][1..];
        assert i - 1 < |a[1..]| ==> a[1..][i - 1] == a[i];
        LessIsLexicographic(a[1..], b[1..]);
      }
    }
  }

  ghost predicate StrictOrder<T(!new)>(lt: (T, T) -> bool) {
    && (forall x :: !lt(x, x))
    && (forall x, y, z :: lt(x, y) && lt(y, z) ==> lt(x, z))
  }

  /** A comparison that orders any two different values. */
  ghost predicate StrictTotal<T(!new)>(lt: (T, T) -> bool) {
    StrictOrder(lt) && forall x, y :: lt(x, y) || lt(y, x) || x == y
  }

  /** The comparison orders any two elements at different positions. */
  ghost predicate Comparable<T(!new)>(lt: (T, T) -> bool, s: seq<T>) {
    forall i, j :: 0 <= i < j < |s| ==> lt(s[i], s[j]) || lt(s[j], s[i])
  }

  lemma {:induction false} LessIrreflexive(a: Text)
    ensures !Less(a, a)
  {
    if a != [] { LessIrreflexive(a[1..]); }
  }

  lemma {:induction false} LessTotal(a: Text, b: Text)
    ensures Less(a, b) || Less(b, a) || a == b
  {
    if a != [] && b != [] && a[0] == b[0] {
      LessTotal(a[1..], b[1..]);
      assert a == [a[0]] + a[1..] && b == [b[0]] + b[1..];
    }
  }

  lemma {:induction false} LessTransitive(a: Text, b: Text, c: Text)
    requires Less(a, b) && Less(b, c)
    ensures Less(a, c)
  {
    if a != [] && a[0] == b[0] == c[0] {
      LessTransitive(a[1..], b[1..], c[1..]);
    }
  }

  lemma LessIsStrictTotal()
    ensures StrictTotal(Less)
  {
    forall x: Text ensures !Less(x, x) { LessIrreflexive(x); }
    forall x: Text, y: Text ensures Less(x, y) || Less(y, x) || x == y { LessTotal(x, y); }
    forall x: Text, y: Text, z: Text | Less(x, y) && Less(y, z) ensures Less(x, z) { LessTransitive(x, y, z); }
  }

  // ---------------------------------------------------------------------------------------
  // Sorting
  // ---------------------------------------------------------------------------------------

  ghost predicate SortedBy<T(!new)>(lt: (T, T) -> bool, s: seq<T>) {
    forall i, j :: 0 <= i < j < |s| ==> lt(s[i], s[j])
  }

  /** Stable insertion: `x` goes before the first element that is not less than it. */
  function Insert<T>(lt: (T, T) -> bool, x: T, s: seq<T>): (r: seq<T>)
    ensures |r| == |s| + 1
    ensures multiset(r) == multiset([x]) + multiset(s)
  {
    if s == [] || !lt(s[0], x) then [x] + s
    else
      assert s == [s[0]] + s[1..];
      [s[0]] + Insert(lt, x, s[1..])
  }

  function Sort<T>(lt: (T, T) -> bool, s: seq<T>): (r: seq<T>)
    ensures |r| == |s|
    ensures multiset(r) == multiset(s)
  {
    if s == [] then []
    else
      assert s == [s[0]] + s[1..];
      Insert(lt, s[0], Sort(lt, s[1..]))
  }

  ghost predicate Distinct<T(!new)>(s: seq<T>) {
    forall i, j :: 0 <= i < j < |s| ==> s[i] != s[j]
  }

  lemma SameMembers<T>(a: seq<T>, b: seq<T>)
    requires multiset(a) == multiset(b)
    ensures forall x :: x in a <==> x in b
  {
    assert forall x :: x in a <==> x in multiset(a);
    assert forall x :: x in b <==> x in multiset(b);
  }

  lemma {:induction false} InsertSorted<T(!new)>(lt: (T, T) -> bool, x: T, s: seq<T>)
    requires StrictOrder(lt) && SortedBy(lt, s) && forall y :: y in s ==> lt(x, y) || lt(y, x)
    ensures SortedBy(lt, Insert(lt, x, s))
    ensures forall y :: y in Insert(lt, x, s) <==> y == x || y in s
  {
    if s == [] {
    } else if !lt(s[0], x) {
      assert s[0] in s && lt(x, s[0]);
    } else {
      assert forall y :: y in s[1..] ==> y in s;
      InsertSorted(lt, x, s[1..]);
      var r := Insert(lt, x, s[1..]);
      forall i | 0 <= i < |r| ensures lt(s[0], r[i]) {
        assert r[i] in r;
        assert r[i] == x || r[i] in s[1..];
      }
    }
  }

  /** Sorting elements that are pairwise comparable puts them in strictly increasing order. */
  lemma {:induction false} SortSorts<T(!new)>(lt: (T, T) -> bool, s: seq<T>)
    requires StrictOrder(lt) && Comparable(lt, s)
    ensures SortedBy(lt, Sort(lt, s))
    ensures forall y :: y in Sort(lt, s) <==> y in s
  {
    if s != [] {
      SortSorts(lt, s[1..]);
      InsertSorted(lt, s[0], Sort(lt, s[1..]));
    }
  }

  /** A set has one strictly increasing listing only. */
  lemma {:induction false} SortedUnique<T(!new)>(lt: (T, T) -> bool, a: seq<T>, b: seq<T>)
    requires StrictOrder(lt) && SortedBy(lt, a) && SortedBy(lt, b)
    requires forall x :: x in a <==> x in b
    ensures a == b
  {
    assert a != [] ==> a[0] in b;
    assert b != [] ==> b[0] in a;
    if a != [] {
      assert a[0] == b[0];
      forall x ensures x in a[1..] <==> x in b[1..] {
        if x in a[1..] { assert x in a; assert x != a[0]; }
        if x in b[1..] { assert x in b; assert x != b[0]; }
      }
      SortedUnique(lt, a[1..], b[1..]);
    }
  }

  /** Sorting something sorted changes nothing. */
  lemma {:induction false} SortOfSorted<T(!new)>(lt: (T, T) -> bool, s: seq<T>)
    requires StrictOrder(lt) && SortedBy(lt, s)
    ensures Sort(lt, s) == s
  {
    SortSorts(lt, s);
    SortedUnique(lt, Sort(lt, s), s);
  }

  /** Each element once, as a Python set display keeps it. */
  function Dedup<T(==, !new)>(s: seq<T>): (r: seq<T>)
    ensures forall x :: x in r <==> x in s
    ensures |r| <= |s|
  {
    if s == [] then []
    else if s[0] in s[1..] then Dedup(s[1..])
    else [s[0]] + Dedup(s[1..])
  }

  lemma {:induction false} DedupDistinct<T(!new)>(s: seq<T>)
    ensures Distinct(Dedup(s))
  {
    if s != [] { DedupDistinct(s[1..]); }
  }

  /** `sorted(set(s))`. */
  function SortUnique<T(==, !new)>(lt: (T, T) -> bool, s: seq<T>): seq<T> {
    Sort(lt, Dedup(s))
  }

  lemma {:induction false} SortUniqueSorts<T(!new)>(lt: (T, T) -> bool, s: seq<T>)
    requires StrictTotal(lt)
    ensures SortedBy(lt, SortUnique(lt, s))
    ensures forall x :: x in SortUnique(lt, s) <==> x in s
  {
    DedupDistinct(s);
    SortSorts(lt, Dedup(s));
  }

  lemma {:induction false} DistinctCount<T(!new)>(s: seq<T>)
    requires Distinct(s)
    ensures |set x | x in s| == |s|
  {
    if s == [] {
      assert (set x | x in s) == {};
    } else {
      DistinctCount(s[1..]);
      assert (set x | x in s) == {s[0]} + (set x | x in s[1..]);
    }
  }
}
