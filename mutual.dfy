/** Relation symmetrisation (`addMutualFriends`): a reversed copy of every
    sampled pair is appended, self-pairs are dropped and exact repeats are
    removed, keeping each pair's first occurrence (`_.uniqWith(_, _.isEqual)`). */
module Mutual {
  import opened Model

  function Flip(r: Relation): Relation {
    Relation(r.friendId, r.userId)
  }

  /** The reversed copies, in the order of the pairs they reverse. */
  function Mirror(rs: seq<Relation>): (m: seq<Relation>)
    ensures |m| == |rs|
    ensures forall x :: x in m <==> Flip(x) in rs
  {
    var m := seq(|rs|, i requires 0 <= i < |rs| => Flip(rs[i]));
    assert forall x :: Flip(x) in rs ==> x in m by {
      forall x | Flip(x) in rs ensures x in m {
        var i :| 0 <= i < |rs| && rs[i] == Flip(x);
        assert m[i] == x;
      }
    }
    m
  }

  predicate IsSelf(r: Relation) {
    r.userId == r.friendId
  }

  /** `relations.filter((item) => item.userId !== item.friendId)`. */
  function DropSelf(rs: seq<Relation>): (r: seq<Relation>)
    ensures |r| <= |rs|
    ensures forall x :: x in r <==> x in rs && !IsSelf(x)
  {
    if rs == [] then []
    else
      assert rs == [rs[0]] + rs[1..];
      (if IsSelf(rs[0]) then [] else [rs[0]]) + DropSelf(rs[1..])
  }

  /** `_.uniqWith(s, _.isEqual)`: the first occurrence of every value, in order. */
  function Dedup<T(==,!new)>(s: seq<T>): (d: seq<T>)
    ensures forall x :: x in d <==> x in s
    ensures Distinct(d)
  {
    if s == [] then []
    else
      var init, last := s[..|s| - 1], s[|s| - 1];
      assert s == init + [last];
      var d := Dedup(init);
      if last in d then d else d + [last]
  }

  /** The symmetric relation the refresh continues with: without repeats, and
      holding a pair exactly when it or its reverse was sampled and its two ids differ. */
  function Symmetrize(relations: seq<Relation>): (s: seq<Relation>)
    ensures Distinct(s)
    ensures forall x :: x in s <==> (x in relations || Flip(x) in relations) && !IsSelf(x)
  {
    Dedup(DropSelf(relations + Mirror(relations)))
  }

  predicate Symmetric(rs: seq<Relation>) {
    forall r :: r in rs ==> Flip(r) in rs
  }

  predicate Irreflexive(rs: seq<Relation>) {
    forall r :: r in rs ==> !IsSelf(r)
  }

  /** `addMutualFriends` as written. The reverses are pushed onto the list
      being mapped, but `Array.prototype.map` fixes the visited range before the
      first callback, so only the original pairs are visited. */
  method AddMutualFriends(relations: seq<Relation>) returns (r: seq<Relation>)
    ensures r == Symmetrize(relations)
    ensures Symmetric(r) && Irreflexive(r) && Distinct(r)
    ensures forall x :: x in r <==> (x in relations || Flip(x) in relations) && !IsSelf(x)
  {
    var list := relations;
    var n := |list|;
    var i := 0;
    while i < n
      invariant 0 <= i <= n
      invariant list == relations + Mirror(relations[..i])
    {
      var item := list[i];
      assert Mirror(relations[..i + 1]) == Mirror(relations[..i]) + [Flip(relations[i])];
      list := list + [Relation(item.friendId, item.userId)];
      i := i + 1;
    }
    assert relations[..n] == relations;
    list := DropSelf(list);
    r := Dedup(list);
    SymmetrizeSound(relations);
  }

  /** The symmetric relation is symmetric, has no self-pair and no repeat, and
      as a set it is the input together with its reverses, minus the diagonal. */
  lemma SymmetrizeSound(relations: seq<Relation>)
    ensures var s := Symmetrize(relations);
      Symmetric(s) && Irreflexive(s) && Distinct(s) &&
      forall x :: x in s <==> (x in relations || Flip(x) in relations) && !IsSelf(x)
  {
    var s := Symmetrize(relations);
    var all := relations + Mirror(relations);
    assert forall x :: x in s <==> x in all && !IsSelf(x);
    forall x | x in s ensures Flip(x) in s {
      assert Flip(Flip(x)) == x;
    }
  }

  /** Dropping self-pairs changes nothing once there are none. */
  lemma {:induction false} DropSelfIrreflexive(rs: seq<Relation>)
    requires Irreflexive(rs)
    ensures DropSelf(rs) == rs
  {
    if rs != [] {
      assert rs == [rs[0]] + rs[1..];
      DropSelfIrreflexive(rs[1..]);
    }
  }

  /** A list without repeats is its own first-occurrence list. */
  lemma {:induction false} DedupDistinct<T(!new)>(s: seq<T>)
    requires Distinct(s)
    ensures Dedup(s) == s
  {
    if s != [] {
      var init := s[..|s| - 1];
      assert Distinct(init) by {
        forall i, j | 0 <= i < j < |init| ensures init[i] != init[j] {
          assert init[i] == s[i] && init[j] == s[j];
        }
      }
      DedupDistinct(init);
      assert s[|s| - 1] !in init by {
        forall j | 0 <= j < |init| ensures init[j] != s[|s| - 1] {
          assert init[j] == s[j];
        }
      }
      assert s == init + [s[|s| - 1]];
    }
  }

  /** Appending only values already present does not change the first-occurrence list. */
  lemma {:induction false} DedupAbsorbs<T(!new)>(a: seq<T>, b: seq<T>)
    requires forall x :: x in b ==> x in a
    ensures Dedup(a + b) == Dedup(a)
  {
    if b == [] {
      assert a + b == a;
    } else {
      var b' := b[..|b| - 1];
      assert (a + b)[..|a + b| - 1] == a + b';
      assert (a + b)[|a + b| - 1] == b[|b| - 1];
      DedupAbsorbs(a, b');
    }
  }

  /** Symmetrising the symmetric relation returns the identical list. */
  lemma SymmetrizeIdempotent(relations: seq<Relation>)
    ensures Symmetrize(Symmetrize(relations)) == Symmetrize(relations)
  {
    var s := Symmetrize(relations);
    SymmetrizeSound(relations);
    var m := Mirror(s);
    assert Irreflexive(s + m) by {
      forall x | x in s + m ensures !IsSelf(x) {
        if x in m { assert Flip(x) in s; }
      }
    }
    DropSelfIrreflexive(s + m);
    DedupAbsorbs(s, m);
    DedupDistinct(s);
  }

  lemma IndexOfLast<T>(init: seq<T>, x: T)
    requires x !in init
    ensures IndexOf(init + [x], x) == |init|
  {
    assert (init + [x])[..|init|] == init;
  }

  /** Every value of `d` first occurs in `s` before the values after it in `d`. */
  predicate OrderedByFirstOccurrence<T(==)>(s: seq<T>, d: seq<T>)
    requires forall x :: x in d ==> x in s
  {
    forall i, j :: 0 <= i < j < |d| ==> IndexOf(s, d[i]) < IndexOf(s, d[j])
  }

  /** The first-occurrence list is ordered by the first occurrences in its input. */
  lemma {:induction false} DedupFirstOccurrence<T(!new)>(s: seq<T>)
    ensures OrderedByFirstOccurrence(s, Dedup(s))
  {
    if s != [] {
      var init, last := s[..|s| - 1], s[|s| - 1];
      assert s == init + [last];
      var d0 := Dedup(init);
      DedupFirstOccurrence(init);
      forall k | 0 <= k < |d0| ensures IndexOf(s, d0[k]) == IndexOf(init, d0[k]) {
        IndexOfAppend(init, [last], d0[k]);
      }
      if last !in d0 {
        IndexOfLast(init, last);
        var d := d0 + [last];
        assert Dedup(s) == d;
        forall i, j | 0 <= i < j < |d| ensures IndexOf(s, d[i]) < IndexOf(s, d[j]) {
          assert d[i] == d0[i];
          if j < |d0| {
            assert d[j] == d0[j];
          }
        }
      } else {
        assert Dedup(s) == d0;
      }
    }
  }

  lemma IndexOfCons<T>(h: T, t: seq<T>, x: T)
    requires x in t && x != h
    ensures IndexOf([h] + t, x) == 1 + IndexOf(t, x)
  {
    assert ([h] + t)[1..] == t;
  }

  /** Two pairs other than the head keep their order when the head is removed
      before dropping self-pairs. */
  lemma DropSelfTail(h: Relation, t: seq<Relation>, x: Relation, y: Relation)
    requires x != h && y != h && x in DropSelf([h] + t) && y in DropSelf([h] + t)
    requires IndexOf(DropSelf([h] + t), x) < IndexOf(DropSelf([h] + t), y)
    ensures x in DropSelf(t) && y in DropSelf(t)
    ensures IndexOf(DropSelf(t), x) < IndexOf(DropSelf(t), y)
  {
    var rs, dt := [h] + t, DropSelf(t);
    assert rs[0] == h && rs[1..] == t;
    if IsSelf(h) {
      assert DropSelf(rs) == [] + dt == dt;
    } else {
      assert DropSelf(rs) == [h] + dt;
      IndexOfCons(h, dt, x);
      IndexOfCons(h, dt, y);
    }
  }

  /** Dropping self-pairs keeps the relative order of first occurrences. */
  lemma {:induction false} DropSelfKeepsOrder(rs: seq<Relation>, x: Relation, y: Relation)
    requires x in DropSelf(rs) && y in DropSelf(rs)
    requires IndexOf(DropSelf(rs), x) < IndexOf(DropSelf(rs), y)
    ensures IndexOf(rs, x) < IndexOf(rs, y)
  {
    var h, t := rs[0], rs[1..];
    assert rs == [h] + t;
    if x == h {
      assert IndexOf(rs, x) == 0;
    } else {
      assert y != h by {
        if !IsSelf(h) {
          assert DropSelf(rs) == [h] + DropSelf(t);
          assert IndexOf(DropSelf(rs), h) == 0;
        }
      }
      DropSelfTail(h, t, x, y);
      DropSelfKeepsOrder(t, x, y);
      IndexOfCons(h, t, x);
      IndexOfCons(h, t, y);
    }
  }

  /** The symmetric relation is ordered by first occurrence in the input followed
      by its reverses. */
  lemma SymmetrizeOrder(relations: seq<Relation>)
    ensures OrderedByFirstOccurrence(relations + Mirror(relations), Symmetrize(relations))
  {
    var all := relations + Mirror(relations);
    var kept := DropSelf(all);
    var s := Dedup(kept);
    DedupFirstOccurrence(kept);
    forall i, j | 0 <= i < j < |s| ensures IndexOf(all, s[i]) < IndexOf(all, s[j]) {
      assert IndexOf(kept, s[i]) < IndexOf(kept, s[j]);
      DropSelfKeepsOrder(all, s[i], s[j]);
    }
  }
}
