/**
 * The MongoDB array update operators the application applies to the id lists
 * `user.events` and `user.rsvps`: `$addToSet`, `$pull` with `$in`, and `$set` to `[]`.
 */
module Lists {

  /** Number of occurrences of `x` in `s`. */
  function Count<T(==)>(s: seq<T>, x: T): nat
  {
    multiset(s)[x]
  }

  predicate NoDuplicates<T(==)>(s: seq<T>)
  {
    forall i, j :: 0 <= i < j < |s| ==> s[i] != s[j]
  }

  lemma {:induction false} NoDuplicatesCount<T>(s: seq<T>, x: T)
    requires NoDuplicates(s)
    ensures Count(s, x) <= 1
    ensures x in s <==> Count(s, x) == 1
  {
    if s != [] {
      assert s == [s[0]] + s[1..];
      assert NoDuplicates(s[1..]);
      NoDuplicatesCount(s[1..], x);
      if s[0] == x {
        assert x !in s[1..];
      }
    }
  }

  /** `$addToSet`: append `x` unless it is already an element. */
  function AddToSet<T(==,!new)>(s: seq<T>, x: T): (r: seq<T>)
    ensures x in r
    ensures forall y :: y in r <==> y in s || y == x
    ensures x in s ==> r == s
    ensures x !in s ==> Count(r, x) == 1
    ensures NoDuplicates(s) ==> NoDuplicates(r)
  {
    if x in s then s else s + [x]
  }

  /** Adding an element that is already present changes nothing: `$addToSet` is idempotent. */
  lemma AddToSetIdempotent<T(!new)>(s: seq<T>, x: T)
    ensures AddToSet(AddToSet(s, x), x) == AddToSet(s, x)
  {
  }

  /** `$pull: { field: { $in: xs } }`: remove every occurrence of every member of `xs`, keeping order. */
  function Pull<T(==)>(s: seq<T>, xs: set<T>): (r: seq<T>)
    ensures |r| <= |s|
    ensures forall y :: y in r ==> y in s && y !in xs
  {
    if s == [] then []
    else if s[0] in xs then Pull(s[1..], xs)
    else [s[0]] + Pull(s[1..], xs)
  }

  lemma {:induction false} PullCount<T>(s: seq<T>, xs: set<T>, y: T)
    ensures Count(Pull(s, xs), y) == if y in xs then 0 else Count(s, y)
  {
    if s != [] {
      assert s == [s[0]] + s[1..];
      PullCount(s[1..], xs, y);
    }
  }

  /** What `$pull` keeps: exactly the elements outside `xs`, each as often as before. */
  lemma PullMembers<T>(s: seq<T>, xs: set<T>)
    ensures forall y :: y in Pull(s, xs) <==> y in s && y !in xs
    ensures forall y :: y !in xs ==> Count(Pull(s, xs), y) == Count(s, y)
  {
    forall y ensures Count(Pull(s, xs), y) == if y in xs then 0 else Count(s, y) {
      PullCount(s, xs, y);
    }
  }

  lemma {:induction false} PullNoDuplicates<T>(s: seq<T>, xs: set<T>)
    requires NoDuplicates(s)
    ensures NoDuplicates(Pull(s, xs))
  {
    if s != [] {
      assert NoDuplicates(s[1..]);
      PullNoDuplicates(s[1..], xs);
      PullMembers(s[1..], xs);
      assert s[0] !in s[1..];
    }
  }

  /** Pulling a set none of whose members occurs leaves the list as it was. */
  lemma {:induction false} PullAbsent<T>(s: seq<T>, xs: set<T>)
    requires forall y :: y in s ==> y !in xs
    ensures Pull(s, xs) == s
  {
    if s != [] {
      assert s == [s[0]] + s[1..];
      PullAbsent(s[1..], xs);
    }
  }

  /** Two pulls in a row are one pull of the union. */
  lemma {:induction false} PullPull<T>(s: seq<T>, xs: set<T>, ys: set<T>)
    ensures Pull(Pull(s, xs), ys) == Pull(s, xs + ys)
  {
    if s != [] {
      PullPull(s[1..], xs, ys);
    }
  }
}
