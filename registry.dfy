/**
  `TouchRippleController`: the ordered list of the ripples being shown.

  `attach` appends; `detach` is `MutableList.remove`, which removes the
  first element equal to its argument. `TouchEffect` does not override
  `equals`, so equality is identity; Dafny compares object references by
  identity too.
*/
module Registry {
  import opened Effect

  /** `s` with its first occurrence of `x` removed; `s` itself when `x` does not occur. */
  function Without<T(==)>(s: seq<T>, x: T): (r: seq<T>)
    ensures x !in s ==> r == s
    ensures x in s ==> |r| == |s| - 1
  {
    if s == [] then []
    else if s[0] == x then s[1..]
    else [s[0]] + Without(s[1..], x)
  }

  /** Removal takes exactly one copy of `x` out of the list's multiset, and none when it is absent. */
  lemma {:induction false} WithoutMultiset<T>(s: seq<T>, x: T)
    ensures multiset(Without(s, x)) == multiset(s) - multiset{x}
  {
    if s != [] {
      assert s == [s[0]] + s[1..];
      if s[0] != x {
        WithoutMultiset(s[1..], x);
      }
    }
  }

  /** The position of the first occurrence of `x` in `s`. */
  function FirstIndex<T(==)>(s: seq<T>, x: T): (i: nat)
    requires x in s
    ensures i < |s| && s[i] == x && x !in s[..i]
  {
    if s[0] == x then 0
    else
      var i := 1 + FirstIndex(s[1..], x);
      assert s[..i] == [s[0]] + s[1..][..i - 1];
      i
  }

  /** Removal at a known first occurrence `i`: the entries before and after it are kept in order. */
  lemma {:induction false} WithoutAt<T>(s: seq<T>, x: T, i: nat)
    requires i < |s| && s[i] == x && x !in s[..i]
    ensures Without(s, x) == s[..i] + s[i + 1..]
    decreases i
  {
    if i == 0 {
      assert s[..0] + s[1..] == s[1..];
    } else {
      var t := s[1..];
      assert s[0] in s[..i];
      assert t[..i - 1] == s[1..i];
      assert x !in t[..i - 1];
      calc {
        Without(s, x);
      ==
        [s[0]] + Without(t, x);
      == { WithoutAt(t, x, i - 1); }
        [s[0]] + (t[..i - 1] + t[i..]);
      ==
        ([s[0]] + t[..i - 1]) + t[i..];
      == { assert s[..i] == [s[0]] + t[..i - 1]; assert s[i + 1..] == t[i..]; }
        s[..i] + s[i + 1..];
      }
    }
  }

  /** Removal takes out exactly the first occurrence and keeps everything else in order. */
  lemma WithoutRemovesFirst<T>(s: seq<T>, x: T)
    requires x in s
    ensures var i := FirstIndex(s, x); Without(s, x) == s[..i] + s[i + 1..]
  {
    var i := FirstIndex(s, x);
    WithoutAt(s, x, i);
  }

  /** Removing `x` from a list that ends in an effect other than `x` does not touch that last entry. */
  lemma {:induction false} WithoutAppendOther<T>(s: seq<T>, x: T, y: T)
    requires x != y
    ensures Without(s + [y], x) == Without(s, x) + [y]
  {
    if s == [] {
      assert [] + [y] == [y];
      assert Without([y], x) == [y] + Without([], x);
    } else {
      assert (s + [y])[1..] == s[1..] + [y];
      if s[0] != x {
        WithoutAppendOther(s[1..], x, y);
      }
    }
  }

  /** Attaching an effect the list does not hold and then detaching it restores the list. */
  lemma {:induction false} WithoutAppended<T>(s: seq<T>, x: T)
    requires x !in s
    ensures Without(s + [x], x) == s
  {
    if s == [] {
      assert [] + [x] == [x];
    } else {
      assert (s + [x])[1..] == s[1..] + [x];
      WithoutAppended(s[1..], x);
      assert s == [s[0]] + s[1..];
    }
  }

  /** Detaching two effects gives the same list in either order. */
  lemma {:induction false} WithoutCommutes<T>(s: seq<T>, x: T, y: T)
    ensures Without(Without(s, y), x) == Without(Without(s, x), y)
  {
    if s != [] && s[0] != x && s[0] != y {
      WithoutCommutes(s[1..], x, y);
      assert Without(s, y)[1..] == Without(s[1..], y);
      assert Without(s, x)[1..] == Without(s[1..], x);
    }
  }

  /** A change another tap makes to the list while a ripple animates. */
  datatype Change<T> = Attached(effect: T) | Detached(effect: T)

  /** The list after one change: an attach adds one copy of the effect, a detach removes one. */
  function Apply<T(==)>(s: seq<T>, c: Change<T>): (r: seq<T>)
    ensures c.Attached? ==> multiset(r) == multiset(s) + multiset{c.effect}
    ensures c.Detached? ==> multiset(r) == multiset(s) - multiset{c.effect}
  {
    match c
    case Attached(e) => s + [e]
    case Detached(e) => WithoutMultiset(s, e); Without(s, e)
  }

  /** The list after the changes `cs`, in order. */
  function Run<T(==)>(s: seq<T>, cs: seq<Change<T>>): (r: seq<T>)
    ensures |r| <= |s| + |cs|
    decreases |cs|
  {
    if cs == [] then s else Run(Apply(s, cs[0]), cs[1..])
  }

  /** None of the changes concerns `x`. */
  predicate Unrelated<T(==)>(cs: seq<Change<T>>, x: T) {
    forall i :: 0 <= i < |cs| ==> cs[i].effect != x
  }

  /** Detaching `x` commutes with changes that concern other effects. */
  lemma {:induction false} DetachCommutes<T>(s: seq<T>, x: T, cs: seq<Change<T>>)
    requires Unrelated(cs, x)
    ensures Without(Run(s, cs), x) == Run(Without(s, x), cs)
    decreases |cs|
  {
    if cs != [] {
      assert Unrelated(cs[1..], x);
      match cs[0]
      case Attached(e) =>
        WithoutAppendOther(s, x, e);
        DetachCommutes(s + [e], x, cs[1..]);
      case Detached(e) =>
        WithoutCommutes(s, x, e);
        DetachCommutes(Without(s, e), x, cs[1..]);
    }
  }

  /** Changes that concern other effects leave the number of occurrences of `x` alone. */
  lemma {:induction false} OccurrencesKept<T>(s: seq<T>, x: T, cs: seq<Change<T>>)
    requires Unrelated(cs, x)
    ensures multiset(Run(s, cs))[x] == multiset(s)[x]
    decreases |cs|
  {
    if cs != [] {
      assert Unrelated(cs[1..], x);
      assert multiset(Apply(s, cs[0]))[x] == multiset(s)[x];
      OccurrencesKept(Apply(s, cs[0]), x, cs[1..]);
    }
  }

  /**
    A ripple's lifecycle, interleaved with any changes of other taps: while
    it animates it is in the list exactly once; detaching it afterwards
    removes it, and the list is what the other changes alone would give.
  */
  lemma LifecycleIsolation<T>(s: seq<T>, x: T, cs: seq<Change<T>>)
    requires x !in s
    requires Unrelated(cs, x)
    ensures multiset(Run(s + [x], cs))[x] == 1
    ensures x !in Without(Run(s + [x], cs), x)
    ensures Without(Run(s + [x], cs), x) == Run(s, cs)
  {
    OccurrencesKept(s + [x], x, cs);
    WithoutMultiset(Run(s + [x], cs), x);
    assert multiset(s + [x]) == multiset(s) + multiset{x};
    DetachCommutes(s + [x], x, cs);
    WithoutAppended(s, x);
  }

  /** Two taps in a row: whichever finishes first, the other stays in place. */
  lemma TwoTaps<T>(s: seq<T>, a: T, b: T)
    requires a != b && a !in s && b !in s
    ensures Without(s + [a] + [b], a) == s + [b]
    ensures Without(s + [a] + [b], b) == s + [a]
    ensures Without(Without(s + [a] + [b], a), b) == s
  {
    WithoutAppendOther(s + [a], a, b);
    WithoutAppended(s, a);
    WithoutAppended(s, b);
    WithoutAppended(s + [a], b);
  }

  class TouchRippleController {
    /** `effects`: the ripples in the order they were attached. */
    var effects: seq<TouchEffect>

    constructor ()
      ensures effects == []
    {
      effects := [];
    }

    /** Appends; duplicates are not rejected. */
    method Attach(effect: TouchEffect)
      modifies this
      ensures effects == old(effects) + [effect]
      ensures effects == Apply(old(effects), Attached(effect))
    {
      effects := effects + [effect];
    }

    /** Removes the first occurrence of this very instance; no-op when it is absent. */
    method Detach(effect: TouchEffect)
      modifies this
      ensures effects == Without(old(effects), effect)
      ensures effects == Apply(old(effects), Detached(effect))
    {
      effects := Without(effects, effect);
    }
  }
}
