/** Small facts about sequences, stated once so that larger proofs need not rediscover them. */
module Sequences {
  lemma Assoc<T>(a: seq<T>, b: seq<T>, c: seq<T>)
    ensures (a + b) + c == a + (b + c)
  {
  }

  lemma Snoc<T>(a: seq<T>, x: T, b: seq<T>)
    ensures a + ([x] + b) == (a + [x]) + b
  {
  }

  lemma Ends<T>(s: seq<T>)
    ensures [] + s == s && s + [] == s && s[0..] == s && s[..|s|] == s && s[..0] == [] && s[|s|..] == []
  {
  }

  /** Cutting twice from the left. */
  lemma DropDrop<T>(s: seq<T>, a: nat, b: nat)
    requires a + b <= |s|
    ensures s[a..][b..] == s[a + b..] && s[a..][..b] == s[a..a + b]
  {
  }

  /** The parts of a sequence cut at `a` and `b`. */
  lemma Parts<T>(s: seq<T>, a: nat, b: nat)
    requires a <= b <= |s|
    ensures s[..a] + s[a..b] == s[..b] && s[..b] + s[b..] == s && s[a..b] + s[b..] == s[a..] && s[..a] + s[a..] == s
  {
  }

  lemma Middle<T>(a: seq<T>, b: seq<T>, c: seq<T>)
    ensures ((a + b) + c)[|a|..|a| + |b|] == b
    ensures (a + b)[|a|..] == b && (a + b)[..|a|] == a
  {
  }

  /** The first element of a nonempty sequence, put before others. */
  lemma Head<T>(a: seq<T>, b: seq<T>)
    requires a != []
    ensures (a + b)[0] == a[0] && (a + b)[1..] == a[1..] + b
    ensures [a[0]] + a[1..] == a
  {
  }

  lemma Cons<T>(x: T, s: seq<T>)
    ensures ([x] + s)[0] == x && ([x] + s)[1..] == s
  {
  }

  lemma HeadTake<T>(s: seq<T>, n: nat)
    requires 1 <= n <= |s|
    ensures [s[0]] + s[1..][..n - 1] == s[..n] && s[1..][n - 1..] == s[n..]
  {
  }
}
