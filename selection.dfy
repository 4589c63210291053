/**
 * The selection list of the keycap editor: an array of key identifiers with
 * set semantics, changed by `push` (append) and `splice(indexOf(x), 1)`
 * (remove the first occurrence).
 */
module Selection {

  /** A key element is identified by its `id` attribute, the key code. */
  type KeyId = string

  /** No element occurs twice in `s`. */
  ghost predicate NoDups(s: seq<KeyId>) {
    forall i, j :: 0 <= i < j < |s| ==> s[i] != s[j]
  }

  /** The set of elements of `s`. */
  function Elems(s: seq<KeyId>): set<KeyId> {
    set x | x in s
  }

  /** `Array.prototype.indexOf`: the position of the first occurrence of `x`, or -1. */
  function IndexOf(s: seq<KeyId>, x: KeyId): (i: int)
    ensures -1 <= i < |s|
    ensures i == -1 <==> x !in s
    ensures 0 <= i ==> s[i] == x && x !in s[..i]
  {
    if s == [] then -1
    else if s[0] == x then 0
    else
      var j := IndexOf(s[1..], x);
      if j == -1 then -1
      else
        assert s[..j + 1] == [s[0]] + s[1..][..j];
        j + 1
  }

  /** `s.splice(s.indexOf(x), 1)` on a list that holds `x`: drops its first occurrence. */
  function RemoveFirst(s: seq<KeyId>, x: KeyId): (r: seq<KeyId>)
    requires x in s
    ensures |r| == |s| - 1
    ensures multiset(r) == multiset(s) - multiset{x}
    ensures NoDups(s) ==> NoDups(r) && x !in r && Elems(r) == Elems(s) - {x}
  {
    var i := IndexOf(s, x);
    var r := s[..i] + s[i + 1..];
    assert s == s[..i] + [x] + s[i + 1..];
    assert NoDups(s) ==> NoDups(r) && x !in r && Elems(r) == Elems(s) - {x} by {
      if NoDups(s) { RemoveAt(s, i); }
    }
    r
  }

  /** Dropping position `i` of a duplicate-free list drops exactly the element there. */
  lemma RemoveAt(s: seq<KeyId>, i: nat)
    requires i < |s| && NoDups(s)
    ensures var r := s[..i] + s[i + 1..];
      NoDups(r) && s[i] !in r && Elems(r) == Elems(s) - {s[i]}
  {
    var r := s[..i] + s[i + 1..];
    assert forall a :: 0 <= a < |r| ==> r[a] == if a < i then s[a] else s[a + 1];
    forall y | y in Elems(s) - {s[i]} ensures y in r {
      var j :| 0 <= j < |s| && s[j] == y;
      assert r[if j < i then j else j - 1] == y;
    }
  }

  /** The tail of a duplicate-free list is duplicate-free. */
  lemma NoDupsTail(s: seq<KeyId>)
    requires s != [] && NoDups(s)
    ensures NoDups(s[1..]) && s[0] !in s[1..]
  {
  }

  /**
   * The list after `selectItem(elem, want)`: deselecting removes the one
   * occurrence of `elem`, selecting appends it when it is absent, and every
   * other request leaves the list as it is.
   */
  function Selected(s: seq<KeyId>, elem: KeyId, want: bool): (r: seq<KeyId>)
    ensures NoDups(s) ==> NoDups(r)
    ensures NoDups(s) ==> forall x :: x in r <==> (if x == elem then want else x in s)
    ensures want ==> |s| <= |r| && r[..|s|] == s
  {
    if !want && elem in s then RemoveFirst(s, elem)
    else if want && elem !in s then s + [elem]
    else s
  }

  /** The elements of `s` that are not in `ks`, in their original order. */
  function Without(s: seq<KeyId>, ks: set<KeyId>): (r: seq<KeyId>)
    ensures forall x :: x in r <==> x in s && x !in ks
    ensures NoDups(s) ==> NoDups(r)
    ensures |r| <= |s|
  {
    if s == [] then []
    else if s[0] in ks then Without(s[1..], ks)
    else [s[0]] + Without(s[1..], ks)
  }

  /** Selecting or deselecting the same element twice is the same as doing it once. */
  lemma SelectedIdempotent(s: seq<KeyId>, elem: KeyId, want: bool)
    requires NoDups(s)
    ensures Selected(Selected(s, elem, want), elem, want) == Selected(s, elem, want)
  {
  }

  /** Deselecting removes exactly `elem` and keeps the others in their order. */
  lemma {:induction false} DeselectIsFilter(s: seq<KeyId>, elem: KeyId)
    requires NoDups(s)
    ensures Selected(s, elem, false) == Without(s, {elem})
  {
    if elem !in s {
      WithoutDisjoint(s, {elem});
    } else if s[0] == elem {
      NoDupsTail(s);
      WithoutDisjoint(s[1..], {elem});
      assert RemoveFirst(s, elem) == s[1..];
    } else {
      NoDupsTail(s);
      DeselectIsFilter(s[1..], elem);
      RemoveFirstCons(s, elem);
    }
  }

  /** Removing an element that is not at the head keeps the head. */
  lemma RemoveFirstCons(s: seq<KeyId>, x: KeyId)
    requires x in s && s[0] != x
    ensures x in s[1..] && RemoveFirst(s, x) == [s[0]] + RemoveFirst(s[1..], x)
  {
    var t := s[1..];
    assert x in t by {
      var k :| 0 <= k < |s| && s[k] == x;
      assert t[k - 1] == x;
    }
    var j := IndexOf(t, x);
    assert IndexOf(s, x) == j + 1;
    assert s[..j + 1] == [s[0]] + t[..j];
    assert s[j + 2..] == t[j + 1..];
  }


  /** Filtering out keys that do not occur leaves the list unchanged. */
  lemma {:induction false} WithoutDisjoint(s: seq<KeyId>, ks: set<KeyId>)
    requires forall x :: x in s ==> x !in ks
    ensures Without(s, ks) == s
  {
    if s != [] {
      assert s[0] in s;
      WithoutDisjoint(s[1..], ks);
      assert s == [s[0]] + s[1..];
    }
  }

  /** Filtering by `ks` then by `js` is filtering by both at once. */
  lemma {:induction false} WithoutWithout(s: seq<KeyId>, ks: set<KeyId>, js: set<KeyId>)
    ensures Without(Without(s, ks), js) == Without(s, ks + js)
  {
    if s != [] {
      WithoutWithout(s[1..], ks, js);
      if s[0] !in ks {
        assert Without(s, ks) == [s[0]] + Without(s[1..], ks);
        assert Without(s, ks)[1..] == Without(s[1..], ks);
      }
    }
  }

  /**
   * Deselecting one more key from an already filtered list is filtering by
   * one more key: the step of the `selectAll(false)` loop.
   */
  lemma WithoutStep(s: seq<KeyId>, ks: set<KeyId>, k: KeyId)
    requires NoDups(s)
    ensures Selected(Without(s, ks), k, false) == Without(s, ks + {k})
  {
    DeselectIsFilter(Without(s, ks), k);
    WithoutWithout(s, ks, {k});
  }

  /**
   * Selecting one more key keeps an earlier prefix of the list and adds the
   * key to its elements: the step of the `selectAll(true)` loop.
   */
  lemma AppendStep(s0: seq<KeyId>, s: seq<KeyId>, k: KeyId)
    requires NoDups(s) && |s0| <= |s| && s[..|s0|] == s0
    ensures var r := Selected(s, k, true);
      |s0| <= |r| && r[..|s0|] == s0 && Elems(r) == Elems(s) + {k}
  {
    var r := Selected(s, k, true);
    assert r[..|s0|] == r[..|s|][..|s0|];
  }

  /** A list without elements is empty. */
  lemma ElemsEmpty(s: seq<KeyId>)
    ensures Elems(s) == {} <==> s == []
  {
    if s != [] {
      assert s[0] in Elems(s);
    }
  }

  /** Deselecting every element of a list leaves it empty. */
  lemma WithoutAll(s: seq<KeyId>, ks: set<KeyId>)
    requires Elems(s) <= ks
    ensures Without(s, ks) == []
  {
  }
}
