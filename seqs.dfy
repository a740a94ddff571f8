/** Small facts about sequences shared by the other modules. */
module Seqs {
  /** Membership in a non-empty sequence: in the prefix, or the last element. */
  lemma {:induction false} InSnoc<T>(s: seq<T>, x: T)
    requires s != []
    ensures x in s <==> x in s[..|s| - 1] || x == s[|s| - 1]
  {
    assert s == s[..|s| - 1] + [s[|s| - 1]];
  }

  /** The head and the tail of a concatenation whose first part is non-empty. */
  lemma {:induction false} ConsAppend<T>(a: seq<T>, b: seq<T>)
    requires a != []
    ensures (a + b)[0] == a[0] && (a + b)[1..] == a[1..] + b
  {
  }

  /** The initial part and the last element of a concatenation whose second part is non-empty. */
  lemma {:induction false} AppendSnoc<T>(a: seq<T>, b: seq<T>)
    requires b != []
    ensures (a + b)[..|a + b| - 1] == a + b[..|b| - 1] && (a + b)[|a + b| - 1] == b[|b| - 1]
  {
    assert (a + b)[..|a + b| - 1] == a + b[..|b| - 1];
  }

  /** Cutting a sequence anywhere and gluing the pieces gives it back. */
  lemma {:induction false} CutGlue<T>(s: seq<T>, k: nat)
    requires k <= |s|
    ensures s[..k] + s[k..] == s
  {
  }

  lemma {:induction false} AppendAssoc<T>(a: seq<T>, b: seq<T>, c: seq<T>)
    ensures a + b + c == a + (b + c)
  {
  }

  /** Dropping the last element of a prefix gives the shorter prefix. */
  lemma {:induction false} PrefixDropLast<T>(s: seq<T>, j: nat)
    requires 0 < j <= |s|
    ensures s[..j][..j - 1] == s[..j - 1] && s[..j][j - 1] == s[j - 1]
  {
  }

  /** A prefix one element longer is the shorter prefix and that element. */
  lemma {:induction false} TakeSnoc<T>(s: seq<T>, k: nat)
    requires k < |s|
    ensures s[..k + 1] == s[..k] + [s[k]]
  {
  }
}
