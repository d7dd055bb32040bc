/** Filtering and key-ordered sorting of id sequences, the list operations the
    query layer applies to rows fetched from the store. */
module SeqOps {

  /** `r` is `s` with some elements deleted: what remains keeps its relative order. */
  predicate Kept(r: seq<nat>, s: seq<nat>)
    decreases |s|
  {
    if |s| == 0 then |r| == 0
    else (|r| > 0 && r[0] == s[0] && Kept(r[1..], s[1..])) || Kept(r, s[1..])
  }

  /** Deleting from what was already deleted from is deleting. */
  lemma {:induction false} KeptTrans(a: seq<nat>, b: seq<nat>, c: seq<nat>)
    requires Kept(a, b) && Kept(b, c)
    ensures Kept(a, c)
    decreases |c|
  {
    if |c| > 0 {
      if Kept(b, c[1..]) {
        KeptTrans(a, b, c[1..]);
      } else if Kept(a, b[1..]) {
        KeptTrans(a, b[1..], c[1..]);
      } else {
        KeptTrans(a[1..], b[1..], c[1..]);
      }
    }
  }

  /** Two filters in a row keep the order of the input. */
  lemma FilterTwiceKept(s: seq<nat>, first: nat -> bool, second: nat -> bool)
    ensures Kept(Filter(Filter(s, first), second), s)
  {
    KeptTrans(Filter(Filter(s, first), second), Filter(s, first), s);
  }

  /** Keeps, in order, the ids that satisfy `keep`. */
  function Filter(s: seq<nat>, keep: nat -> bool): (r: seq<nat>)
    ensures forall i | 0 <= i < |r| :: keep(r[i])
    ensures forall x :: multiset(r)[x] == if keep(x) then multiset(s)[x] else 0
    ensures Kept(r, s)
  {
    if |s| == 0 then []
    else
      var rest := Filter(s[1..], keep);
      assert s == [s[0]] + s[1..];
      if keep(s[0]) then [s[0]] + rest else rest
  }

  lemma FilterMembership(s: seq<nat>, keep: nat -> bool, x: nat)
    ensures x in Filter(s, keep) <==> x in s && keep(x)
  {
    var r := Filter(s, keep);
    var mr: multiset<nat> := multiset(r);
    var ms: multiset<nat> := multiset(s);
    assert x in r <==> x in mr;
    assert x in s <==> x in ms;
  }

  lemma FilterMembershipAll(s: seq<nat>, keep: nat -> bool)
    ensures forall x :: x in Filter(s, keep) <==> x in s && keep(x)
  {
    forall x ensures x in Filter(s, keep) <==> x in s && keep(x) {
      FilterMembership(s, keep, x);
    }
  }

  /** Two arrangements of the same multiset hold the same elements. */
  lemma SameElements(a: seq<nat>, b: seq<nat>)
    requires multiset(a) == multiset(b)
    ensures forall x :: x in a <==> x in b
  {
    forall x ensures x in a <==> x in b {
      var ma: multiset<nat> := multiset(a);
      var mb: multiset<nat> := multiset(b);
      assert x in a <==> x in ma;
      assert x in b <==> x in mb;
    }
  }

  predicate SortedBy(s: seq<nat>, key: nat -> int) {
    forall i, j | 0 <= i < j < |s| :: key(s[i]) <= key(s[j])
  }

  /** Places `x` before the first element whose key is not smaller. */
  function Insert(x: nat, s: seq<nat>, key: nat -> int): (r: seq<nat>)
    requires SortedBy(s, key)
    ensures SortedBy(r, key)
    ensures multiset(r) == multiset(s) + multiset{x}
    ensures forall i | 0 <= i < |r| :: r[i] == x || r[i] in s
  {
    if |s| == 0 then [x]
    else if key(x) <= key(s[0]) then [x] + s
    else
      var rest := Insert(x, s[1..], key);
      assert s == [s[0]] + s[1..];
      HeadBelowRest(x, s, rest, key);
      ConsSorted(s[0], rest, key);
      [s[0]] + rest
  }

  /** When `x` goes after the head of sorted `s`, every element of the insertion into
      the tail has a key at least the head's. */
  lemma HeadBelowRest(x: nat, s: seq<nat>, rest: seq<nat>, key: nat -> int)
    requires SortedBy(s, key) && |s| > 0 && key(s[0]) < key(x)
    requires forall i | 0 <= i < |rest| :: rest[i] == x || rest[i] in s[1..]
    ensures forall i | 0 <= i < |rest| :: key(s[0]) <= key(rest[i])
  {
    forall i | 0 <= i < |rest| ensures key(s[0]) <= key(rest[i]) {
      if rest[i] != x {
        var j :| 0 <= j < |s[1..]| && s[1..][j] == rest[i];
        assert s[j + 1] == rest[i];
      }
    }
  }

  /** A sorted sequence stays sorted behind a head whose key is at most all of its keys. */
  lemma ConsSorted(h: nat, rest: seq<nat>, key: nat -> int)
    requires SortedBy(rest, key)
    requires forall i | 0 <= i < |rest| :: key(h) <= key(rest[i])
    ensures SortedBy([h] + rest, key)
  {
    var r := [h] + rest;
    forall i, j | 0 <= i < j < |r| ensures key(r[i]) <= key(r[j]) {
      assert r[j] == rest[j - 1];
      if i > 0 {
        assert r[i] == rest[i - 1];
      }
    }
  }

  /** Ascending by key (an insertion sort). */
  function SortBy(s: seq<nat>, key: nat -> int): (r: seq<nat>)
    ensures SortedBy(r, key)
    ensures multiset(r) == multiset(s)
  {
    if |s| == 0 then []
    else
      assert s == [s[0]] + s[1..];
      Insert(s[0], SortBy(s[1..], key), key)
  }
}
