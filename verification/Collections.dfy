/** Sequence vocabulary of the pose debugger's model. */
module Collections {
  datatype Option<T> = None | Some(value: T)

  /** What f gives for the first n elements of s, one after another. */
  function CollectFirst<A, B>(s: seq<A>, f: A -> seq<B>, n: nat): seq<B>
    requires n <= |s|
  {
    if n == 0 then [] else CollectFirst(s, f, n - 1) + f(s[n - 1])
  }

  /** What f gives for the elements of s. */
  function Collect<A, B>(s: seq<A>, f: A -> seq<B>): seq<B> {
    CollectFirst(s, f, |s|)
  }

  /** Only what the functions give for the first n elements matters. */
  lemma {:induction false} CollectFirstSame<A, B>(s: seq<A>, t: seq<A>, f: A -> seq<B>, g: A -> seq<B>, n: nat)
    requires n <= |s| && n <= |t| && forall i | 0 <= i < n :: f(s[i]) == g(t[i])
    ensures CollectFirst(s, f, n) == CollectFirst(t, g, n)
  {
    if n == 0 {
    } else {
      CollectFirstSame(s, t, f, g, n - 1);
    }
  }

  lemma CollectOne<A, B>(s: seq<A>, x: A, f: A -> seq<B>)
    ensures Collect(s + [x], f) == Collect(s, f) + f(x)
  {
    CollectFirstSame(s + [x], s, f, f, |s|);
  }

  lemma CollectSingle<A, B>(x: A, f: A -> seq<B>)
    ensures Collect([x], f) == f(x)
  {
    CollectOne([], x, f);
    assert [] + [x] == [x];
  }

  lemma CollectSlice<A, B>(s: seq<A>, a: nat, b: nat, f: A -> seq<B>)
    requires a <= b < |s|
    ensures Collect(s[a..b + 1], f) == Collect(s[a..b], f) + f(s[b])
  {
    assert s[a..b + 1] == s[a..b] + [s[b]];
    CollectOne(s[a..b], s[b], f);
  }

  lemma {:induction false} CollectAppendFirst<A, B>(s: seq<A>, t: seq<A>, f: A -> seq<B>, n: nat)
    requires n <= |t|
    ensures CollectFirst(s + t, f, |s| + n) == Collect(s, f) + CollectFirst(t, f, n)
  {
    if n == 0 {
      CollectFirstSame(s + t, s, f, f, |s|);
    } else {
      CollectAppendFirst(s, t, f, n - 1);
    }
  }

  lemma CollectAppend<A, B>(s: seq<A>, t: seq<A>, f: A -> seq<B>)
    ensures Collect(s + t, f) == Collect(s, f) + Collect(t, f)
  {
    CollectAppendFirst(s, t, f, |t|);
  }

  lemma {:induction false} CollectTwiceFirst<A, B, C>(s: seq<A>, f: A -> seq<B>, g: B -> seq<C>, h: A -> seq<C>, n: nat)
    requires n <= |s| && forall i | 0 <= i < n :: h(s[i]) == Collect(f(s[i]), g)
    ensures Collect(CollectFirst(s, f, n), g) == CollectFirst(s, h, n)
  {
    if n == 0 {
    } else {
      CollectTwiceFirst(s, f, g, h, n - 1);
      CollectAppend(CollectFirst(s, f, n - 1), f(s[n - 1]), g);
    }
  }

  /** Collecting from a collection is one collection. */
  lemma CollectTwice<A, B, C>(s: seq<A>, f: A -> seq<B>, g: B -> seq<C>, h: A -> seq<C>)
    requires forall i | 0 <= i < |s| :: h(s[i]) == Collect(f(s[i]), g)
    ensures Collect(Collect(s, f), g) == Collect(s, h)
  {
    CollectTwiceFirst(s, f, g, h, |s|);
  }

  lemma {:induction false} CollectGrows<A, B>(s: seq<A>, f: A -> seq<B>, m: nat, n: nat)
    requires m <= n <= |s|
    ensures |CollectFirst(s, f, m)| <= |CollectFirst(s, f, n)|
  {
    if m == n {
    } else {
      CollectGrows(s, f, m, n - 1);
    }
  }

  /** What an element gives stands after what the elements before it give. */
  lemma {:induction false} CollectAt<A, B>(s: seq<A>, f: A -> seq<B>, e: nat, n: nat, j: nat)
    requires e < n <= |s| && j < |f(s[e])|
    ensures |CollectFirst(s, f, e)| + j < |CollectFirst(s, f, n)|
    ensures CollectFirst(s, f, n)[|CollectFirst(s, f, e)| + j] == f(s[e])[j]
  {
    if e == n - 1 {
    } else {
      CollectAt(s, f, e, n - 1, j);
    }
  }

  /** Where elements give one thing at most, each thing collected comes from one element. */
  lemma {:induction false} CollectSource<A, B>(s: seq<A>, f: A -> seq<B>, n: nat, j: nat) returns (e: nat)
    requires n <= |s| && j < |CollectFirst(s, f, n)| && forall i | 0 <= i < n :: |f(s[i])| <= 1
    ensures e < n && |CollectFirst(s, f, e)| == j && f(s[e]) == [CollectFirst(s, f, n)[j]]
  {
    if j < |CollectFirst(s, f, n - 1)| {
      e := CollectSource(s, f, n - 1, j);
    } else {
      e := n - 1;
    }
  }

  lemma {:induction false} CollectLengths<A, B, C, D>(s: seq<A>, f: A -> seq<B>, g: A -> seq<C>, h: A -> seq<D>, n: nat)
    requires n <= |s| && forall i | 0 <= i < n :: |f(s[i])| == |g(s[i])| + |h(s[i])|
    ensures |CollectFirst(s, f, n)| == |CollectFirst(s, g, n)| + |CollectFirst(s, h, n)|
  {
    if n == 0 {
    } else {
      CollectLengths(s, f, g, h, n - 1);
    }
  }

  /** The numbers from a up to b. */
  function Range(a: nat, b: nat): (r: seq<nat>)
    requires a <= b
    ensures |r| == b - a && forall i | 0 <= i < |r| :: r[i] == a + i
  {
    seq(b - a, i requires 0 <= i => a + i)
  }

  lemma RangesJoin(a: nat, b: nat, c: nat)
    requires a <= b <= c
    ensures Range(a, b) + Range(b, c) == Range(a, c)
  {
  }
}
