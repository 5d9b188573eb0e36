/** What several parts share: options, choosing from a set, sorted and overwritten sequences, regrouping. */
module Common {

  datatype Option<T> = None | Some(value: T)

  method AnyOf<T>(s: set<T>) returns (x: T)
    requires s != {}
    ensures x in s
  {
    x :| x in s;
  }

  /** No element is smaller than one before it. */
  ghost predicate Sorted(s: seq<int>) {
    forall i, j :: 0 <= i < j < |s| ==> s[i] <= s[j]
  }

  /** `s` with `f` written at `at`, as far as `s` reaches or beyond. */
  function Overwritten<T>(s: seq<T>, at: nat, f: seq<T>): seq<T>
    requires at <= |s|
  {
    s[..at] + f + if at + |f| <= |s| then s[at + |f|..] else []
  }

  lemma Reassociate<T>(a: seq<T>, b: seq<T>, c: seq<T>)
    ensures a + (b + c) == (a + b) + c
  {
  }

  lemma Regroup<T>(a: seq<T>, b: seq<T>, c: seq<T>, d: seq<T>)
    ensures a + b + c + d == a + (b + (c + d))
  {
  }
}
