/** Sequence operations that the source takes from the Rust standard library:
    flattening, `chunks`, and the first match of a window. */
module Sequences {

  datatype Option<+T> = None | Some(value: T)

  datatype Result<+T, +E> = Success(value: T) | Failure(error: E)

  function Flatten<T>(parts: seq<seq<T>>): seq<T> {
    if parts == [] then [] else parts[0] + Flatten(parts[1..])
  }

  lemma Associates<T>(x: seq<T>, y: seq<T>, z: seq<T>)
    ensures (x + y) + z == x + (y + z)
  {
  }

  lemma {:induction false} FlattenConcat<T>(a: seq<seq<T>>, b: seq<seq<T>>)
    ensures Flatten(a + b) == Flatten(a) + Flatten(b)
  {
    if a == [] {
      assert a + b == b;
    } else {
      FlattenConcat(a[1..], b);
      assert (a + b)[0] == a[0] && (a + b)[1..] == a[1..] + b;
      Associates(a[0], Flatten(a[1..]), Flatten(b));
    }
  }

  lemma FlattenCons<T>(x: seq<T>, a: seq<seq<T>>)
    ensures Flatten([x] + a) == x + Flatten(a)
    ensures Flatten([x]) == x
  {
    assert ([x] + a)[1..] == a;
    assert Flatten([x]) == x + Flatten([]);
  }

  lemma FlattenSnoc<T>(a: seq<seq<T>>, x: seq<T>)
    ensures Flatten(a + [x]) == Flatten(a) + x
  {
    FlattenConcat(a, [x]);
    assert Flatten([x]) == x + Flatten([]);
  }

  lemma FlattenAppended<T>(a: seq<seq<T>>, x: seq<T>, b: seq<seq<T>>)
    requires b == a + [x]
    ensures Flatten(b) == Flatten(a) + x
  {
    FlattenSnoc(a, x);
  }

  lemma FlattenTakeNext<T>(s: seq<seq<T>>, i: nat)
    requires i < |s|
    ensures Flatten(s[..i + 1]) == Flatten(s[..i]) + s[i]
  {
    assert s[..i + 1] == s[..i] + [s[i]];
    FlattenAppended(s[..i], s[i], s[..i + 1]);
  }

  lemma FlattenFirstPart<T>(a: seq<seq<T>>, b: seq<seq<T>>, s: seq<seq<T>>)
    requires s == a + b
    ensures Flatten(a) <= Flatten(s)
  {
    FlattenConcat(a, b);
  }

  lemma FlattenTake<T>(s: seq<seq<T>>, i: nat)
    requires i <= |s|
    ensures Flatten(s[..i]) <= Flatten(s)
  {
    assert s == s[..i] + s[i..];
    FlattenFirstPart(s[..i], s[i..], s);
  }

  lemma ConsAssociates<T>(s: seq<T>, t: seq<T>)
    requires s != []
    ensures [s[0]] + (s[1..] + t) == s + t
  {
  }

  lemma TailConcat<T>(a: seq<T>, b: seq<T>)
    requires a != []
    ensures (a + b)[1..] == a[1..] + b && (a + b)[0] == a[0]
  {
  }

  lemma DropTwice<T>(s: seq<T>, i: nat, j: nat)
    requires i + j <= |s|
    ensures s[i..][j..] == s[i + j..]
  {
  }

  lemma PrefixAndRest<T>(a: seq<T>, s: seq<T>)
    requires a <= s
    ensures s == a + s[|a|..]
  {
  }

  lemma SliceTwice<T>(s: seq<T>, i: nat, j: nat, k: nat, l: nat)
    requires i <= j <= |s| && k <= l <= j - i
    ensures s[i..j][k..l] == s[i + k..i + l]
  {
    var t := s[i..j];
    forall m | 0 <= m < l - k
      ensures t[k..l][m] == s[i + k..i + l][m]
    {
      assert t[k..l][m] == t[k + m] == s[i + (k + m)];
    }
  }

  lemma DropSlice<T>(s: seq<T>, n: nat, i: nat, j: nat, t: seq<T>)
    requires n <= |s| && i <= j <= |s| - n && t == s[n..]
    ensures t[i..j] == s[n + i..n + j]
  {
    assert s[n..|s|] == t;
    SliceTwice(s, n, |s|, i, j);
  }

  lemma JoinSlices<T>(s: seq<T>, i: nat, j: nat)
    requires i <= j <= |s|
    ensures s[..i] + s[i..j] == s[..j]
  {
  }

  type Size = n: nat | n > 0 witness 1

  /** `slice.chunks(n)`: pieces of length `n`, the last one possibly shorter. */
  function Chunks<T>(s: seq<T>, n: Size): seq<seq<T>>
    decreases |s|
  {
    if s == [] then []
    else if |s| <= n then [s]
    else [s[..n]] + Chunks(s[n..], n)
  }

  function Min(a: nat, b: nat): nat { if a <= b then a else b }

  /** `n * i`, by repeated addition. */
  function Times(n: nat, i: nat): nat {
    if i == 0 then 0 else Times(n, i - 1) + n
  }

  lemma {:induction false} TimesIsProduct(n: nat, i: nat)
    ensures Times(n, i) == n * i
  {
    if i > 0 {
      TimesIsProduct(n, i - 1);
      assert n * (i - 1) + n == n * i;
    }
  }

  /** Chunk `i` is the slice from `at == Times(n, i)`; only the last chunk can be shorter than `n`. */
  lemma {:induction false} ChunkAt<T>(s: seq<T>, n: Size, i: nat, at: nat)
    requires i < |Chunks(s, n)| && at == Times(n, i)
    ensures at < |s|
    ensures Chunks(s, n)[i] == s[at..Min(at + n, |s|)]
    ensures i + 1 == |Chunks(s, n)| <==> |s| <= at + n
    decreases i
  {
    if |s| > n && i > 0 {
      ChunkAt(s[n..], n, i - 1, at - n);
      DropSlice(s, n, at - n, Min(at, |s| - n), s[n..]);
    }
  }

  lemma ChunkLength<T>(s: seq<T>, n: Size, i: nat)
    requires i < |Chunks(s, n)|
    ensures 0 < |Chunks(s, n)[i]| <= n
  {
    ChunkAt(s, n, i, Times(n, i));
  }

  /** The chunks before chunk `i` are the first `at == Times(n, i)` elements. */
  lemma {:induction false} ChunksBefore<T>(s: seq<T>, n: Size, i: nat, at: nat)
    requires i <= |Chunks(s, n)| && at == Times(n, i)
    ensures Flatten(Chunks(s, n)[..i]) == s[..Min(at, |s|)]
    decreases i
  {
    var parts := Chunks(s, n);
    if i > 0 {
      ChunksBefore(s, n, i - 1, at - n);
      ChunkAt(s, n, i - 1, at - n);
      FlattenTakeNext(parts, i - 1);
      JoinSlices(s, at - n, Min(at, |s|));
    }
  }

  lemma {:induction false} AllChunks<T>(s: seq<T>, n: Size)
    ensures Flatten(Chunks(s, n)[..|Chunks(s, n)|]) == s
    ensures Flatten(Chunks(s, n)) == s
    decreases |s|
  {
    assert Chunks(s, n)[..|Chunks(s, n)|] == Chunks(s, n);
    if |s| > n {
      AllChunks(s[n..], n);
      assert Chunks(s, n)[1..] == Chunks(s[n..], n);
    } else if s != [] {
      assert Chunks(s, n)[1..] == [];
    }
  }

  lemma SplitAt<T>(whole: seq<T>, head: seq<T>, tail: seq<T>)
    requires |whole| == |head| + |tail|
    requires forall i | 0 <= i < |head| :: whole[i] == head[i]
    requires forall j | 0 <= j < |tail| :: whole[|head| + j] == tail[j]
    ensures whole == head + tail
  {
    assert forall i | |head| <= i < |whole| :: whole[i] == whole[|head| + (i - |head|)];
  }

  function Repeat<T>(x: T, n: nat): (s: seq<T>)
    ensures |s| == n && forall i | 0 <= i < n :: s[i] == x
  {
    seq(n, _ => x)
  }

  predicate OccursAt<T(==)>(s: seq<T>, pattern: seq<T>, i: int) {
    0 <= i && i + |pattern| <= |s| && s[i..i + |pattern|] == pattern
  }

  /** Position `i` is the first at which `pattern` occurs. */
  ghost predicate FirstAt<T>(s: seq<T>, pattern: seq<T>, i: int) {
    OccursAt(s, pattern, i) && forall j | 0 <= j < i :: !OccursAt(s, pattern, j)
  }

  ghost predicate Absent<T>(s: seq<T>, pattern: seq<T>) {
    forall j :: !OccursAt(s, pattern, j)
  }

  /** `windows(n).position(..)`, which is also how `split` and `split_once` find their pattern. */
  function Find<T(==)>(s: seq<T>, pattern: seq<T>): (r: Option<nat>)
    ensures r.Some? ==> r.value + |pattern| <= |s|
  {
    FindFrom(s, pattern, 0)
  }

  function FindFrom<T(==)>(s: seq<T>, pattern: seq<T>, from: nat): (r: Option<nat>)
    ensures r.Some? ==> from <= r.value && r.value + |pattern| <= |s|
    decreases |s| + 1 - from
  {
    if from + |pattern| > |s| then None
    else if OccursAt(s, pattern, from) then Some(from)
    else FindFrom(s, pattern, from + 1)
  }

  lemma {:induction false} FindFromFirst<T>(s: seq<T>, pattern: seq<T>, from: nat)
    requires forall j | 0 <= j < from :: !OccursAt(s, pattern, j)
    ensures var r := FindFrom(s, pattern, from);
            (r.None? ==> Absent(s, pattern)) && (r.Some? ==> FirstAt(s, pattern, r.value))
    decreases |s| + 1 - from
  {
    if from + |pattern| <= |s| && !OccursAt(s, pattern, from) {
      FindFromFirst(s, pattern, from + 1);
    }
  }

  /** The search finds the first occurrence, if there is one. */
  lemma FindFirst<T>(s: seq<T>, pattern: seq<T>)
    ensures var r := Find(s, pattern);
            (r.None? ==> Absent(s, pattern)) && (r.Some? ==> FirstAt(s, pattern, r.value))
  {
    FindFromFirst(s, pattern, 0);
  }

  lemma FindUnique<T>(s: seq<T>, pattern: seq<T>, i: nat)
    requires FirstAt(s, pattern, i)
    ensures Find(s, pattern) == Some(i)
  {
    FindFirst(s, pattern);
    assert OccursAt(s, pattern, i);
  }
}
