/** Lists of byte chunks, as `createZip` collects them before joining them into one blob. */
module Chunks {
  import opened LittleEndian

  /** The concatenation of a list of chunks, as `new Blob([...])` joins them (zip.js:72). */
  function Flatten(chunks: seq<seq<byte>>): seq<byte>
  {
    if chunks == [] then [] else Flatten(chunks[..|chunks| - 1]) + chunks[|chunks| - 1]
  }

  /** `chunks.reduce((sum, chunk) => sum + chunk.length, 0)` (zip.js:66). */
  function SumLengths(chunks: seq<seq<byte>>): nat
  {
    if chunks == [] then 0 else SumLengths(chunks[..|chunks| - 1]) + |chunks[|chunks| - 1]|
  }

  /** Joining two lists of chunks joins their bytes. */
  lemma {:induction false} FlattenAppend(a: seq<seq<byte>>, b: seq<seq<byte>>)
    ensures Flatten(a + b) == Flatten(a) + Flatten(b)
    decreases |b|
  {
    if b == [] {
      assert a + b == a;
    } else {
      var c := a + b;
      assert c[..|c| - 1] == a + b[..|b| - 1];
      FlattenAppend(a, b[..|b| - 1]);
    }
  }

  /** The reduce over the chunk lengths is the length of the joined chunks. */
  lemma {:induction false} SumLengthsIsFlattenLength(chunks: seq<seq<byte>>)
    ensures SumLengths(chunks) == |Flatten(chunks)|
  {
    if chunks != [] {
      SumLengthsIsFlattenLength(chunks[..|chunks| - 1]);
    }
  }

  lemma {:induction false} Flatten1(x: seq<byte>)
    ensures Flatten([x]) == x
  {
    assert [x][..0] == [];
  }

  lemma {:induction false} Flatten2(x: seq<byte>, y: seq<byte>)
    ensures Flatten([x, y]) == x + y
  {
    assert [x, y][..1] == [x];
    Flatten1(x);
  }

  lemma {:induction false} Flatten3(x: seq<byte>, y: seq<byte>, z: seq<byte>)
    ensures Flatten([x, y, z]) == x + y + z
  {
    assert [x, y, z][..2] == [x, y];
    Flatten2(x, y);
  }

  /** Chunk `k` of a list sits in the joined bytes right after the chunks before it. */
  lemma {:induction false} FlattenAt(rs: seq<seq<byte>>, k: nat)
    requires k < |rs|
    ensures |Flatten(rs[..k])| + |rs[k]| <= |Flatten(rs)|
    ensures Flatten(rs[..k + 1]) == Flatten(rs[..k]) + rs[k]
    ensures Flatten(rs)[|Flatten(rs[..k])|..|Flatten(rs[..k])| + |rs[k]|] == rs[k]
  {
    assert rs[..k + 1] == rs[..k] + [rs[k]];
    assert rs == rs[..k + 1] + rs[k + 1..];
    FlattenAppend(rs[..k], [rs[k]]);
    FlattenAppend(rs[..k + 1], rs[k + 1..]);
    Flatten1(rs[k]);
    var before, r, after := Flatten(rs[..k]), rs[k], Flatten(rs[k + 1..]);
    assert Flatten(rs) == before + r + after;
    assert (before + r + after)[|before|..|before| + |r|] == r;
  }

  /** One more chunk adds its length. */
  lemma {:induction false} FlattenPrefixLength(rs: seq<seq<byte>>, k: nat)
    requires k < |rs|
    ensures |Flatten(rs[..k + 1])| == |Flatten(rs[..k])| + |rs[k]|
  {
    assert rs[..k + 1][..k] == rs[..k];
  }

  /** `a[p..p + |x|] == x` carries over to every slice of `x`. */
  lemma {:induction false} SubSlice(a: seq<byte>, x: seq<byte>, p: nat, i: nat, j: nat)
    requires p + |x| <= |a| && a[p..p + |x|] == x
    requires i <= j <= |x|
    ensures a[p + i..p + j] == x[i..j]
  {
    forall t | 0 <= t < j - i
      ensures a[p + i..p + j][t] == x[i..j][t]
    {
      assert x[i + t] == a[p..p + |x|][i + t];
    }
  }

  /** Chunk `k` again, with its start `p` and end `q` in the joined bytes given by the caller. */
  lemma {:induction false} FlattenAtPos(rs: seq<seq<byte>>, k: nat, p: nat, q: nat)
    requires k < |rs| && p == |Flatten(rs[..k])| && q == p + |rs[k]|
    ensures q <= |Flatten(rs)|
    ensures Flatten(rs)[p..q] == rs[k]
  {
    FlattenAt(rs, k);
  }

  /** A slice of the first part of `l + c + e`. */
  lemma {:induction false} FrontSlice(a: seq<byte>, l: seq<byte>, c: seq<byte>, e: seq<byte>, i: nat, j: nat)
    requires a == l + c + e && i <= j <= |l|
    ensures a[i..j] == l[i..j]
  {
    assert a[0..|l|] == l;
    SubSlice(a, l, 0, i, j);
  }

  /** A slice of the middle part of `l + c + e`, which sits at `p..q` of the whole. */
  lemma {:induction false} MiddleSlice(a: seq<byte>, l: seq<byte>, c: seq<byte>, e: seq<byte>, i: nat, j: nat, p: nat, q: nat)
    requires a == l + c + e && i <= j <= |c| && p == |l| + i && q == |l| + j
    ensures a[p..q] == c[i..j]
  {
    assert a[|l|..|l| + |c|] == c;
    SubSlice(a, c, |l|, i, j);
  }

  /** The last part of `l + c + e`, which starts at `p`. */
  lemma {:induction false} BackSlice(a: seq<byte>, l: seq<byte>, c: seq<byte>, e: seq<byte>, p: nat)
    requires a == l + c + e && p == |l| + |c|
    ensures |a| == p + |e| && a[p..] == e
  {
  }
}
