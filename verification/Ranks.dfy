/** The newest entries of a fingerprint-to-timestamp map.

    Entries compare by timestamp and then by fingerprint. `Newest` says which entries survive a
    cap by counting who outranks them; it mentions no sorting and no order of arrival.
  */
module Ranks {
  import opened Order

  type Stamps = map<Text, int>

  predicate Newer(m: Stamps, g: Text, f: Text)
    requires g in m && f in m
  {
    m[f] < m[g] || (m[f] == m[g] && Less(f, g))
  }

  function NewerThan(m: Stamps, f: Text): set<Text>
    requires f in m
  {
    set g | g in m && Newer(m, g, f)
  }

  /** The entries that fewer than `k` others outrank. */
  function Newest(m: Stamps, k: int): Stamps {
    map f | f in m && |NewerThan(m, f)| < k :: m[f]
  }

  function Since(m: Stamps, start: int): Stamps {
    map f | f in m && start <= m[f] :: m[f]
  }

  lemma {:induction false} NewerOrder(m: Stamps, f: Text, g: Text, h: Text)
    requires f in m && g in m && h in m
    ensures !Newer(m, f, f)
    ensures f != g ==> Newer(m, f, g) || Newer(m, g, f)
    ensures Newer(m, f, g) && Newer(m, g, h) ==> Newer(m, f, h)
  {
    LessIsStrictTotal();
  }

  lemma {:induction false} SubsetCard<T>(a: set<T>, b: set<T>)
    requires a <= b
    ensures |a| <= |b|
    ensures |a| == |b| ==> a == b
  {
    assert b == a + (b - a);
  }

  lemma {:induction false} NewestSubmap(m: Stamps, k: int)
    ensures forall f :: f in Newest(m, k) ==> f in m && Newest(m, k)[f] == m[f]
  {}

  /** Whatever outranks a kept entry is kept. */
  lemma {:induction false} NewestUpward(m: Stamps, k: int, f: Text, g: Text)
    requires f in Newest(m, k) && g in m && Newer(m, g, f)
    ensures g in Newest(m, k)
  {
    forall h | h in NewerThan(m, g) ensures h in NewerThan(m, f) { NewerOrder(m, h, g, f); }
    SubsetCard(NewerThan(m, g), NewerThan(m, f));
  }

  ghost function Oldest(m: Stamps): (f: Text)
    requires m != map[]
    ensures f in m && NewerThan(m, f) == m.Keys - {f}
    decreases |m|
  {
    var g :| g in m;
    if m.Keys == {g} then
      NewerOrder(m, g, g, g);
      g
    else
      var rest := m - {g};
      assert rest.Keys == m.Keys - {g};
      assert m.Keys - {g} != {};
      var o := Oldest(rest);
      OldestStep(m, g, o);
      if Newer(m, g, o) then o else g
  }

  lemma {:induction false} SameNewer(m: Stamps, rest: Stamps, g: Text, f: Text)
    requires g in rest && f in rest && rest.Keys <= m.Keys && rest[g] == m[g] && rest[f] == m[f]
    ensures Newer(rest, g, f) <==> Newer(m, g, f)
  {}

  lemma {:induction false} OldestStep(m: Stamps, g: Text, o: Text)
    requires g in m && o in m && o != g
    requires NewerThan(m - {g}, o) == m.Keys - {g} - {o}
    ensures Newer(m, g, o) ==> NewerThan(m, o) == m.Keys - {o}
    ensures !Newer(m, g, o) ==> NewerThan(m, g) == m.Keys - {g}
  {
    hide Newer;
    var rest := m - {g};
    forall h | h in m && h != g && h != o ensures Newer(m, h, o) {
      assert h in NewerThan(rest, o);
      SameNewer(m, rest, h, o);
    }
    NewerOrder(m, o, g, g);
    NewerOrder(m, o, o, o);
    if !Newer(m, g, o) {
      NewerOrder(m, g, g, g);
      forall h | h in m && h != g ensures Newer(m, h, g) {
        if h != o { NewerOrder(m, h, o, g); }
      }
    }
  }

  lemma {:induction false} NewestCount(m: Stamps, k: nat)
    ensures |Newest(m, k)| == if |m| <= k then |m| else k
    ensures |m| <= k ==> Newest(m, k) == m
    decreases |m|
  {
    if |m| <= k {
      forall f | f in m ensures |NewerThan(m, f)| < k {
        NewerOrder(m, f, f, f);
        SubsetCard(NewerThan(m, f), m.Keys - {f});
      }
      assert Newest(m, k) == m;
    } else {
      var o := Oldest(m);
      var rest := m - {o};
      assert rest.Keys == m.Keys - {o};
      forall f | f in rest ensures NewerThan(rest, f) == NewerThan(m, f) {
        assert f in NewerThan(m, o);
        NewerOrder(m, f, o, f);
        NewerOrder(m, f, f, f);
        assert o !in NewerThan(m, f);
      }
      assert Newest(m, k) == Newest(rest, k);
      NewestCount(rest, k);
    }
  }

  /** Pruning by age and keeping the newest commute. */
  lemma {:induction false} SinceNewest(m: Stamps, k: int, start: int)
    ensures Since(Newest(m, k), start) == Newest(Since(m, start), k)
  {
    forall f | f in Since(m, start) ensures NewerThan(Since(m, start), f) == NewerThan(m, f) {}
  }

  /** An entry outranked by `k` entries of `m` is outranked by `k` of the newest `k`. */
  lemma {:induction false} OutrankedByKept(m: Stamps, k: nat, f: Text, t: int)
    requires f !in m
    ensures var a, b := Newest(m, k)[f := t], m[f := t];
            |NewerThan(a, f)| < k <==> |NewerThan(b, f)| < k
    ensures |NewerThan(Newest(m, k)[f := t], f)| <= |NewerThan(m[f := t], f)|
  {
    var a, b := Newest(m, k)[f := t], m[f := t];
    SubsetCard(NewerThan(a, f), NewerThan(b, f));
    if |NewerThan(b, f)| >= k {
      var above := map g | g in NewerThan(b, f) - {f} :: m[g];
      NewerOrder(b, f, f, f);
      assert above.Keys == NewerThan(b, f);
      NewestCount(above, k);
      forall g | g in Newest(above, k) ensures g in NewerThan(a, f) {
        forall h | h in NewerThan(m, g) ensures h in NewerThan(above, g) {
          NewerOrder(b, h, g, f);
        }
        SubsetCard(NewerThan(m, g), NewerThan(above, g));
      }
      SubsetCard(Newest(above, k).Keys, NewerThan(a, f));
    }
  }

  /** Evicting before an insertion does not change what the insertion and a later eviction leave. */
  lemma {:induction false} NewestInsert(m: Stamps, k: nat, f: Text, t: int)
    requires f in m ==> m[f] == t
    ensures Newest(Newest(m, k)[f := t], k) == Newest(m[f := t], k)
  {
    var a, b := Newest(m, k)[f := t], m[f := t];
    if f in Newest(m, k) {
      assert a == Newest(m, k) && b == m;
      NewestIdempotent(m, k);
    } else {
      forall g | g in b ensures g in Newest(a, k) <==> g in Newest(b, k) {
        InsertedRank(m, k, f, t, g);
      }
      assert Newest(a, k).Keys == Newest(b, k).Keys;
    }
  }

  /** Inserting an entry that is not among the newest leaves every entry on the same side of the cut. */
  lemma {:induction false} InsertedRank(m: Stamps, k: nat, f: Text, t: int, g: Text)
    requires (f in m ==> m[f] == t) && f !in Newest(m, k) && (g == f || g in m)
    ensures g in Newest(Newest(m, k)[f := t], k) <==> g in Newest(m[f := t], k)
  {
    var b := m[f := t];
    if g == f {
      if f in m {
        assert (m - {f})[f := t] == m == b;
        RestrictedNewest(m, k, f);
        OutrankedByKept(m - {f}, k, f, t);
      } else {
        OutrankedByKept(m, k, f, t);
      }
    } else if g in Newest(m, k) {
      KeptRank(m, k, f, t, g);
    } else {
      SubsetCard(NewerThan(m, g), NewerThan(b, g));
    }
  }

  /** Inserting gives every kept entry the same rank with and without the earlier eviction. */
  lemma {:induction false} KeptRank(m: Stamps, k: nat, f: Text, t: int, g: Text)
    requires f in m ==> m[f] == t
    requires g in Newest(m, k) && g != f
    ensures NewerThan(Newest(m, k)[f := t], g) == NewerThan(m[f := t], g)
  {
    var a, b := Newest(m, k)[f := t], m[f := t];
    forall h | h in NewerThan(b, g) ensures h in NewerThan(a, g) {
      if h != f { NewestUpward(m, k, g, h); }
    }
  }

  /** Removing an evicted entry does not change the newest `k`. */
  lemma {:induction false} RestrictedNewest(m: Stamps, k: nat, f: Text)
    requires f in m && f !in Newest(m, k)
    ensures Newest(m - {f}, k) == Newest(m, k)
  {
    var rest := m - {f};
    forall g | g in rest ensures |NewerThan(rest, g)| < k <==> |NewerThan(m, g)| < k {
      if g in Newest(m, k) {
        if f in NewerThan(m, g) { NewestUpward(m, k, g, f); }
        assert NewerThan(rest, g) == NewerThan(m, g);
      } else {
        if |NewerThan(rest, g)| < k {
          assert NewerThan(m, g) - {f} == NewerThan(rest, g);
          assert f in NewerThan(m, g);
          forall h | h in NewerThan(m, f) ensures h in NewerThan(rest, g) {
            NewerOrder(m, h, f, g);
            NewerOrder(m, f, f, f);
          }
          SubsetCard(NewerThan(m, f), NewerThan(rest, g));
        }
      }
    }
  }

  lemma {:induction false} NewestIdempotent(m: Stamps, k: nat)
    ensures Newest(Newest(m, k), k) == Newest(m, k)
  {
    forall g | g in Newest(m, k) ensures |NewerThan(Newest(m, k), g)| < k {
      SubsetCard(NewerThan(Newest(m, k), g), NewerThan(m, g));
    }
  }
}
