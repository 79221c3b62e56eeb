/**
 * The difference hash of repost.py and the Hamming distance between two hashes.
 * The hash is taken from the point where the image is already an 8-row by 9-column
 * grid of grey levels: reading the file, converting it to grey and resizing it are
 * done by OpenCV and are not part of this model.
 */
module DHash {
  import opened Wrappers
  import opened BitCodec

  /** A grey level of OpenCV's 8-bit single-channel image. */
  type Luma = v: int | 0 <= v < 256

  predicate IsGrid(g: seq<seq<Luma>>)
  {
    |g| == 8 && forall r :: 0 <= r < 8 ==> |g[r]| == 9
  }

  /** The image after `cv.resize(image, (9, 8))`: 8 rows of 9 grey levels. */
  type Grid = g: seq<seq<Luma>> | IsGrid(g) witness seq(8, _ => seq(9, _ => 0))

  /** `np.all(resized == resized[0,0])`: every cell has the grey level of the first. */
  predicate IsFlat(g: Grid)
  {
    forall r, c :: 0 <= r < 8 && 0 <= c < 9 ==> g[r][c] == g[0][0]
  }

  /** One row of `resized[:, 1:] > resized[:, :-1]` as integers: 1 where a cell is brighter than its left neighbour. */
  function RowGradient(row: seq<Luma>): (r: seq<Bit>)
    requires |row| == 9
  {
    seq(8, c requires 0 <= c < 8 => if row[c + 1] > row[c] then 1 else 0)
  }

  /** numpy's `flatten`: the rows one after the other. */
  function Flatten(rows: seq<seq<Bit>>): seq<Bit>
  {
    if rows == [] then [] else rows[0] + Flatten(rows[1..])
  }

  /** hash(image): no hash for a missing or flat image, otherwise the flattened row gradients. */
  function Hash(image: Option<Grid>): (h: Option<seq<Bit>>)
    ensures h.Some? ==> |h.value| == 64
  {
    match image
    case None => None
    case Some(g) =>
      if IsFlat(g) then None
      else
        var rows := seq(8, r requires 0 <= r < 8 => RowGradient(g[r]));
        FlattenAt(rows, 0, 0);
        Some(Flatten(rows))
  }

  lemma {:induction false} FlattenAt(rows: seq<seq<Bit>>, r: nat, c: nat)
    requires forall i :: 0 <= i < |rows| ==> |rows[i]| == 8
    ensures |Flatten(rows)| == 8 * |rows|
    ensures r < |rows| && c < 8 ==> Flatten(rows)[8 * r + c] == rows[r][c]
  {
    if rows != [] {
      if r > 0 {
        FlattenAt(rows[1..], r - 1, c);
      } else {
        FlattenAt(rows[1..], 0, 0);
      }
    }
  }

  /**
   * The difference hash: none exactly when there is no image or the grid is flat;
   * otherwise 64 bits, row-major, bit 8*r + c being 1 exactly when cell (r, c+1)
   * is strictly brighter than cell (r, c).
   */
  lemma HashSpec(image: Option<Grid>)
    ensures Hash(image).None? <==> image.None? || IsFlat(image.value)
    ensures Hash(image).Some? ==> forall r, c :: 0 <= r < 8 && 0 <= c < 8 ==>
      Hash(image).value[8 * r + c] == (if image.value[r][c + 1] > image.value[r][c] then 1 else 0)
  {
    if Hash(image).Some? {
      var g := image.value;
      var rows := seq(8, r requires 0 <= r < 8 => RowGradient(g[r]));
      FlattenAt(rows, 0, 0);
      forall r, c | 0 <= r < 8 && 0 <= c < 8
        ensures Hash(image).value[8 * r + c] == (if g[r][c + 1] > g[r][c] then 1 else 0)
      {
        FlattenAt(rows, r, c);
      }
    }
  }

  /** hammingDistance(a, b): the number of positions at which `a` and `b` differ. */
  function HammingDistance(a: seq<Bit>, b: seq<Bit>): (d: nat)
    requires |a| == |b|
    ensures d <= |a|
    ensures d == 0 <==> a == b
  {
    if a == [] then 0
    else
      assert a == a[..|a| - 1] + [a[|a| - 1]] && b == b[..|b| - 1] + [b[|b| - 1]];
      HammingDistance(a[..|a| - 1], b[..|b| - 1]) + if a[|a| - 1] != b[|b| - 1] then 1 else 0
  }

  /** The positions at which `a` and `b` differ. */
  function Mismatches(a: seq<Bit>, b: seq<Bit>): set<nat>
    requires |a| == |b|
  {
    set i: nat | i < |a| && a[i] != b[i]
  }

  /** The Hamming distance is the size of the set of differing positions. */
  lemma {:induction false} HammingCountsMismatches(a: seq<Bit>, b: seq<Bit>)
    requires |a| == |b|
    ensures HammingDistance(a, b) == |Mismatches(a, b)|
  {
    if a != [] {
      var n := |a| - 1;
      var a', b' := a[..n], b[..n];
      HammingCountsMismatches(a', b');
      if a[n] != b[n] {
        assert Mismatches(a, b) == Mismatches(a', b') + {n};
      } else {
        assert Mismatches(a, b) == Mismatches(a', b');
      }
    }
  }

  lemma {:induction false} HammingSymmetric(a: seq<Bit>, b: seq<Bit>)
    requires |a| == |b|
    ensures HammingDistance(a, b) == HammingDistance(b, a)
  {
    if a != [] {
      HammingSymmetric(a[..|a| - 1], b[..|b| - 1]);
    }
  }
}
