/** Slices and concatenations of sequences. */
module Sequences {
  lemma SliceOfSlice<T>(s: seq<T>, begin: nat, end: nat, from: nat, to: nat)
    requires begin <= end <= |s| && from <= to <= end - begin
    ensures s[begin..end][from..to] == s[begin + from..begin + to]
  {
    forall i | 0 <= i < to - from
      ensures s[begin..end][from..to][i] == s[begin + from..begin + to][i]
    {
    }
  }

  lemma SuffixOfSuffix<T>(s: seq<T>, at: nat, from: nat)
    requires at + from <= |s|
    ensures s[at..][from..] == s[at + from..]
  {
  }

  lemma SameSuffix<T>(s: seq<T>, at: nat, t: seq<T>, begin: nat, end: nat, from: nat)
    requires at <= |s| && begin <= end <= |t| && s[at..] == t[begin..end] && begin + from <= end
    ensures at + from <= |s| && s[at + from..] == t[begin + from..end]
  {
    SuffixOfSuffix(s, at, from);
    SliceOfSlice(t, begin, end, from, end - begin);
  }

  lemma Consecutive<T>(s: seq<T>, a: nat, b: nat, c: nat)
    requires a <= b <= c <= |s|
    ensures s[a..b] + s[b..c] == s[a..c]
  {
  }

  /** One of two parts being empty, it does not matter which of them comes first. */
  lemma EitherFirst<T>(a: seq<T>, b: seq<T>, c: seq<T>)
    requires a == [] || b == []
    ensures (a + (b + c))[|b|..] == a + c
  {
    if a == [] {
      assert a + (b + c) == b + c && a + c == c;
    } else {
      assert b + c == c;
    }
  }

  /** From inside the middle part on: what is left of it, then the rest. */
  lemma FromTheMiddle<T>(a: seq<T>, w: seq<T>, b: seq<T>, from: nat)
    requires from <= |w|
    ensures (a + (w + b))[|a| + from..] == w[from..] + (a + b)[|a|..]
  {
  }

  lemma SliceBehind<T>(a: seq<T>, b: seq<T>, from: nat, to: nat)
    requires from <= to <= |b|
    ensures (a + b)[|a| + from..|a| + to] == b[from..to]
    ensures (a + b)[..|a| + from] == a + b[..from]
  {
  }

  lemma PartsOfPrefix<T>(a: seq<T>, b: seq<T>, s: seq<T>, at: nat)
    requires at <= |s| && a + b <= s[at..]
    ensures a <= s[at..] && at + |a| <= |s| && b <= s[at + |a|..]
  {
    SuffixOfSuffix(s, at, |a|);
  }

  lemma SubWindow<T>(s: seq<T>, at: nat, t: seq<T>, at': nat, length: nat, from: nat, to: nat)
    requires at + length <= |s| && at' + length <= |t| && from <= to <= length
    requires s[at..at + length] == t[at'..at' + length]
    ensures s[at + from..at + to] == t[at' + from..at' + to]
  {
    SliceOfSlice(s, at, at + length, from, to);
    SliceOfSlice(t, at', at' + length, from, to);
  }

  /** Everything in a list of chunks, in order. */
  function Joined<T>(chunks: seq<seq<T>>): seq<T> {
    if chunks == [] then [] else chunks[0] + Joined(chunks[1..])
  }

  lemma {:induction false} JoinedAppend<T>(a: seq<seq<T>>, b: seq<seq<T>>)
    ensures Joined(a + b) == Joined(a) + Joined(b)
  {
    if a == [] {
      assert a + b == b;
    } else {
      JoinedAppend(a[1..], b);
      assert (a + b)[1..] == a[1..] + b;
      Associative(a[0], Joined(a[1..]), Joined(b));
    }
  }

  lemma JoinedAround<T>(ws: seq<seq<T>>, k: nat)
    requires k < |ws|
    ensures Joined(ws) == Joined(ws[..k]) + (ws[k] + Joined(ws[k + 1..]))
    ensures Joined(RemoveAt(ws, k)) == Joined(ws[..k]) + Joined(ws[k + 1..])
  {
    JoinedAppend(ws[..k], ws[k + 1..]);
    JoinedAppend(ws[..k], ws[k..]);
    assert ws == ws[..k] + ws[k..] && ws[k..][1..] == ws[k + 1..];
  }

  lemma JoinedOne<T>(a: seq<T>)
    ensures Joined([a]) == a
  {
    assert Joined([a][1..]) == [];
  }

  lemma Associative<T>(a: seq<T>, b: seq<T>, c: seq<T>)
    ensures (a + b) + c == a + (b + c)
  {
  }

  function RemoveAt<T>(s: seq<T>, k: nat): seq<T>
    requires k < |s|
  {
    s[..k] + s[k + 1..]
  }

  lemma {:induction false} MultisetRemoveAt<T>(s: seq<T>, k: nat)
    requires k < |s|
    ensures multiset(s) == multiset(RemoveAt(s, k)) + multiset{s[k]}
  {
    assert s == s[..k] + [s[k]] + s[k + 1..];
  }

  lemma {:induction false} MultisetRemoveSame<T>(s: seq<T>, k: nat, t: seq<T>, l: nat)
    requires k < |s| && l < |t| && multiset(s) == multiset(t) && s[k] == t[l]
    ensures multiset(RemoveAt(s, k)) == multiset(RemoveAt(t, l))
  {
    MultisetRemoveAt(s, k);
    MultisetRemoveAt(t, l);
    assert multiset(RemoveAt(s, k)) == multiset(s) - multiset{s[k]};
    assert multiset(RemoveAt(t, l)) == multiset(t) - multiset{t[l]};
  }

  function Fold<S, T>(step: (S, T) -> S, s: S, ts: seq<T>): S {
    if ts == [] then s else step(Fold(step, s, ts[..|ts| - 1]), ts[|ts| - 1])
  }

  lemma {:induction false} FoldAppend<S, T>(step: (S, T) -> S, s: S, a: seq<T>, b: seq<T>)
    ensures Fold(step, s, a + b) == Fold(step, Fold(step, s, a), b)
  {
    if b == [] {
      assert a + b == a;
    } else {
      var n := |b| - 1;
      FoldAppend(step, s, a, b[..n]);
      assert (a + b)[..|a| + n] == a + b[..n] && (a + b)[|a| + n] == b[n];
    }
  }
}
