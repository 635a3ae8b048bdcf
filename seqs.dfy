/** Generic operations over ordered collections, named after the Ruby
    Enumerable methods the todo store uses on its arrays of hashes
    (`select`/`partition`, `reject`/`delete_if`, `any?`, `find`), together
    with the facts about them that the store's properties rest on. */
module Seqs {

  datatype Option<+T> = None | Some(value: T)

  /** The elements satisfying `p`, in their original order (`select`, and the
      first half of `partition`). */
  function Select<T(!new)>(s: seq<T>, p: T -> bool): (r: seq<T>)
    ensures |r| <= |s|
    ensures forall x :: x in r <==> x in s && p(x)
  {
    if s == [] then []
    else
      assert forall x :: x in s <==> x == s[0] || x in s[1..];
      (if p(s[0]) then [s[0]] else []) + Select(s[1..], p)
  }

  /** The elements NOT satisfying `p`, in their original order (`reject`,
      `delete_if`, and the second half of `partition`). */
  function Reject<T(!new)>(s: seq<T>, p: T -> bool): (r: seq<T>)
    ensures |r| <= |s|
    ensures forall x :: x in r <==> x in s && !p(x)
  {
    if s == [] then []
    else
      assert forall x :: x in s <==> x == s[0] || x in s[1..];
      (if p(s[0]) then [] else [s[0]]) + Reject(s[1..], p)
  }

  /** Whether some element satisfies `p` (`any?`). */
  function Any<T>(s: seq<T>, p: T -> bool): (b: bool)
    ensures b <==> exists i :: 0 <= i < |s| && p(s[i])
  {
    if s == [] then false
    else
      assert forall i :: 0 < i < |s| ==> s[i] == s[1..][i - 1];
      p(s[0]) || Any(s[1..], p)
  }

  /** The position of the first element satisfying `p`, if any (`find`,
      answering with the position rather than the element). */
  function FirstMatch<T>(s: seq<T>, p: T -> bool): (r: Option<nat>)
    ensures r.Some? ==> r.value < |s| && p(s[r.value])
    ensures r.Some? ==> forall j :: 0 <= j < r.value ==> !p(s[j])
    ensures r.None? ==> forall j :: 0 <= j < |s| ==> !p(s[j])
  {
    if s == [] then None
    else if p(s[0]) then Some(0)
    else
      match FirstMatch(s[1..], p)
      case None => None
      case Some(i) => Some(i + 1)
  }

  /** No two elements share a key. */
  ghost predicate UniqueBy<T, K>(s: seq<T>, key: T -> K) {
    forall i, j :: 0 <= i < j < |s| ==> key(s[i]) != key(s[j])
  }

  /** `r` is `s` with some elements left out and the rest in their order. */
  ghost predicate IsSubsequence<T>(r: seq<T>, s: seq<T>)
    decreases |s|
  {
    r == [] ||
    (s != [] &&
     ((r[0] == s[0] && IsSubsequence(r[1..], s[1..])) || IsSubsequence(r, s[1..])))
  }

  lemma {:induction false} SelectAppend<T(!new)>(a: seq<T>, b: seq<T>, p: T -> bool)
    ensures Select(a + b, p) == Select(a, p) + Select(b, p)
  {
    if a != [] {
      assert (a + b)[0] == a[0] && (a + b)[1..] == a[1..] + b;
      SelectAppend(a[1..], b, p);
    } else {
      assert a + b == b;
    }
  }

  lemma {:induction false} RejectAppend<T(!new)>(a: seq<T>, b: seq<T>, p: T -> bool)
    ensures Reject(a + b, p) == Reject(a, p) + Reject(b, p)
  {
    if a != [] {
      assert (a + b)[0] == a[0] && (a + b)[1..] == a[1..] + b;
      RejectAppend(a[1..], b, p);
    } else {
      assert a + b == b;
    }
  }

  /** Rejecting by a predicate no element satisfies changes nothing. */
  lemma {:induction false} RejectNone<T(!new)>(s: seq<T>, p: T -> bool)
    requires forall x :: x in s ==> !p(x)
    ensures Reject(s, p) == s
  {
    if s != [] {
      assert forall x :: x in s[1..] ==> x in s;
      RejectNone(s[1..], p);
    }
  }

  /** Selecting by a predicate every element satisfies changes nothing. */
  lemma {:induction false} SelectAll<T(!new)>(s: seq<T>, p: T -> bool)
    requires forall x :: x in s ==> p(x)
    ensures Select(s, p) == s
  {
    if s != [] {
      assert forall x :: x in s[1..] ==> x in s;
      SelectAll(s[1..], p);
    }
  }

  /** Selecting by a predicate no element satisfies leaves nothing. */
  lemma {:induction false} SelectNone<T(!new)>(s: seq<T>, p: T -> bool)
    requires forall x :: x in s ==> !p(x)
    ensures Select(s, p) == []
  {
    if s != [] {
      assert forall x :: x in s[1..] ==> x in s;
      SelectNone(s[1..], p);
    }
  }

  /** Rejecting by a predicate every element satisfies leaves nothing. */
  lemma {:induction false} RejectAll<T(!new)>(s: seq<T>, p: T -> bool)
    requires forall x :: x in s ==> p(x)
    ensures Reject(s, p) == []
  {
    if s != [] {
      assert forall x :: x in s[1..] ==> x in s;
      RejectAll(s[1..], p);
    }
  }

  /** `reject` is idempotent: a second pass finds nothing more to remove. */
  lemma RejectIdempotent<T(!new)>(s: seq<T>, p: T -> bool)
    ensures Reject(Reject(s, p), p) == Reject(s, p)
  {
    RejectNone(Reject(s, p), p);
  }

  /** `select` and `reject` split the elements between them, duplicates
      included. */
  lemma {:induction false} SelectRejectMultiset<T(!new)>(s: seq<T>, p: T -> bool)
    ensures multiset(Select(s, p)) + multiset(Reject(s, p)) == multiset(s)
  {
    if s != [] {
      SelectRejectMultiset(s[1..], p);
      assert s == [s[0]] + s[1..];
    }
  }

  /** `reject` keeps the surviving elements in their original order. */
  lemma {:induction false} RejectIsSubsequence<T(!new)>(s: seq<T>, p: T -> bool)
    ensures IsSubsequence(Reject(s, p), s)
  {
    if s != [] {
      RejectIsSubsequence(s[1..], p);
      var r := Reject(s, p);
      if p(s[0]) {
        assert r == Reject(s[1..], p);
      } else {
        assert r[0] == s[0] && r[1..] == Reject(s[1..], p);
      }
    }
  }

  /** `select` keeps the chosen elements in their original order. */
  lemma {:induction false} SelectIsSubsequence<T(!new)>(s: seq<T>, p: T -> bool)
    ensures IsSubsequence(Select(s, p), s)
  {
    if s != [] {
      SelectIsSubsequence(s[1..], p);
      var r := Select(s, p);
      if p(s[0]) {
        assert r[0] == s[0] && r[1..] == Select(s[1..], p);
      } else {
        assert r == Select(s[1..], p);
      }
    }
  }

  /** A subsequence of a sequence with unique keys has unique keys. */
  lemma {:induction false} SubsequenceKeepsUnique<T, K>(r: seq<T>, s: seq<T>, key: T -> K)
    requires IsSubsequence(r, s) && UniqueBy(s, key)
    ensures UniqueBy(r, key)
    decreases |s|
  {
    if r != [] && s != [] {
      assert UniqueBy(s[1..], key) by {
        forall i, j | 0 <= i < j < |s[1..]| ensures key(s[1..][i]) != key(s[1..][j]) {
          assert s[1..][i] == s[i + 1] && s[1..][j] == s[j + 1];
        }
      }
      if r[0] == s[0] && IsSubsequence(r[1..], s[1..]) {
        SubsequenceKeepsUnique(r[1..], s[1..], key);
        SubsequenceElements(r[1..], s[1..]);
        forall j | 0 < j < |r| ensures key(r[0]) != key(r[j]) {
          assert r[j] == r[1..][j - 1] && r[j] in r[1..];
          var k :| 0 <= k < |s[1..]| && s[1..][k] == r[j];
          assert s[k + 1] == r[j];
        }
        forall i, j | 0 <= i < j < |r| ensures key(r[i]) != key(r[j]) {
          if i > 0 {
            assert r[i] == r[1..][i - 1] && r[j] == r[1..][j - 1];
          }
        }
      } else {
        SubsequenceKeepsUnique(r, s[1..], key);
      }
    }
  }

  /** Every element of a subsequence sits at some position of the sequence. */
  lemma {:induction false} SubsequenceElements<T>(r: seq<T>, s: seq<T>)
    requires IsSubsequence(r, s)
    ensures forall x :: x in r ==> exists k :: 0 <= k < |s| && s[k] == x
    decreases |s|
  {
    if r != [] && s != [] {
      if r[0] == s[0] && IsSubsequence(r[1..], s[1..]) {
        SubsequenceElements(r[1..], s[1..]);
        forall x | x in r ensures exists k :: 0 <= k < |s| && s[k] == x {
          if x != r[0] {
            assert x in r[1..];
            var k :| 0 <= k < |s[1..]| && s[1..][k] == x;
            assert s[k + 1] == x;
          }
        }
      } else {
        SubsequenceElements(r, s[1..]);
        forall x | x in r ensures exists k :: 0 <= k < |s| && s[k] == x {
          var k :| 0 <= k < |s[1..]| && s[1..][k] == x;
          assert s[k + 1] == x;
        }
      }
    }
  }

  /** Appending an element whose key no element has keeps keys unique. */
  lemma AppendKeepsUnique<T, K>(s: seq<T>, x: T, key: T -> K)
    requires UniqueBy(s, key)
    requires forall i :: 0 <= i < |s| ==> key(s[i]) != key(x)
    ensures UniqueBy(s + [x], key)
  {
  }

  /** Replacing one element by one whose key no OTHER element has keeps keys
      unique (in particular: replacing it by one with the same key). */
  lemma UpdateKeepsUnique<T, K>(s: seq<T>, i: nat, x: T, key: T -> K)
    requires i < |s| && UniqueBy(s, key)
    requires forall j :: 0 <= j < |s| && j != i ==> key(s[j]) != key(x)
    ensures UniqueBy(s[i := x], key)
  {
  }

  /** Keys that stay the same position by position keep uniqueness. */
  lemma SameKeysKeepUnique<T, K>(s: seq<T>, t: seq<T>, key: T -> K)
    requires UniqueBy(s, key)
    requires |t| == |s| && forall i :: 0 <= i < |s| ==> key(t[i]) == key(s[i])
    ensures UniqueBy(t, key)
  {
  }
}
