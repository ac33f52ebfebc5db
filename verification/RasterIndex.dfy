/** Addressing a raster stored row after row in one buffer. */
module RasterIndex {
  /** The element at column `x`, row `y` of a buffer whose rows are `stride` long. */
  ghost function At(buffer: seq<nat>, stride: nat, x: int, y: int): nat {
    var index := y * stride + x;
    if 0 <= index < |buffer| then buffer[index] else 0
  }

  lemma {:induction false} RowsAreDisjoint(stride: nat, y: int, py: int)
    requires y < py
    ensures y * stride + stride <= py * stride
  {
    assert 0 <= (py - y - 1) * stride == py * stride - y * stride - stride;
  }

  /** A run inside one row holds exactly that row's elements of its columns. */
  lemma {:induction false} RunIsInOneRow(stride: nat, x: int, y: int, count: nat, px: int, py: int)
    requires 0 <= px < stride && 0 <= x && x + count <= stride
    ensures y * stride + x <= py * stride + px < y * stride + x + count <==> py == y && x <= px < x + count
  {
    if py < y {
      RowsAreDisjoint(stride, py, y);
    } else if y < py {
      RowsAreDisjoint(stride, y, py);
    }
  }

  lemma {:induction false} InsideBuffer(stride: nat, height: nat, x: int, y: int, count: nat)
    requires 0 <= x && x + count <= stride && 0 <= y < height
    ensures 0 <= y * stride + x && y * stride + x + count <= stride * height
  {
    RowsAreDisjoint(stride, -1, y);
    RowsAreDisjoint(stride, y, height);
  }

  lemma {:induction false} RowAndColumn(stride: nat, x: nat, y: nat)
    requires x < stride
    ensures (y * stride + x) / stride == y && (y * stride + x) % stride == x
  {
    var i := y * stride + x;
    var q, r := i / stride, i % stride;
    assert i == q * stride + r;
    if q < y {
      RowsAreDisjoint(stride, q, y);
    } else if y < q {
      RowsAreDisjoint(stride, y, q);
    }
  }

  /** What filling a run of one row does to every element of the raster. */
  lemma {:induction false} FilledRun(before: seq<nat>, after: seq<nat>, stride: nat, height: nat, x: nat, y: nat,
        count: nat, value: nat)
    requires |before| == |after| == stride * height
    requires x + count <= stride && y < height
    requires forall i | 0 <= i < |after| ::
      after[i] == if y * stride + x <= i < y * stride + x + count then value else before[i]
    ensures forall px: int, py: int | 0 <= px < stride && 0 <= py < height ::
      At(after, stride, px, py) == if py == y && x <= px < x + count then value else At(before, stride, px, py)
  {
    forall px: int, py: int | 0 <= px < stride && 0 <= py < height
      ensures At(after, stride, px, py) == if py == y && x <= px < x + count then value else At(before, stride, px, py)
    {
      RunIsInOneRow(stride, x, y, count, px, py);
      InsideBuffer(stride, height, px, py, 1);
    }
  }

  /** What copying the start of one row over another does to the raster. */
  lemma {:induction false} CopiedRun(before: seq<nat>, after: seq<nat>, stride: nat, height: nat, source: nat,
        target: nat, count: nat)
    requires |before| == |after| == stride * height
    requires count <= stride && source < target < height
    requires 0 <= source * stride && source * stride + count <= |before|
    requires 0 <= target * stride && target * stride + count <= |before|
    requires after[target * stride..target * stride + count] == before[source * stride..source * stride + count]
    requires forall i | 0 <= i < |after| && !(target * stride <= i < target * stride + count) :: after[i] == before[i]
    ensures forall px: int, py: int | 0 <= px < stride && 0 <= py < height ::
      At(after, stride, px, py) == At(before, stride, px, if py == target && px < count then source else py)
  {
    forall px: int, py: int | 0 <= px < stride && 0 <= py < height
      ensures At(after, stride, px, py) == At(before, stride, px, if py == target && px < count then source else py)
    {
      RunIsInOneRow(stride, 0, target, count, px, py);
      InsideBuffer(stride, height, px, py, 1);
      InsideBuffer(stride, height, px, source, 1);
      if py == target && px < count {
        assert after[target * stride..target * stride + count][px] == before[source * stride..source * stride + count][px];
        assert after[target * stride + px] == before[source * stride + px];
        assert At(after, stride, px, py) == after[target * stride + px];
        assert At(before, stride, px, source) == before[source * stride + px];
      } else {
        assert At(after, stride, px, py) == At(before, stride, px, py);
      }
    }
  }

  /** What replacing zeroes in the start of one row does to the raster. */
  lemma {:induction false} ReplacedRun(before: seq<nat>, after: seq<nat>, stride: nat, height: nat, y: nat, count: nat,
        value: nat)
    requires |before| == |after| == stride * height
    requires count <= stride && y < height
    requires forall i | 0 <= i < |after| ::
      after[i] == if y * stride <= i < y * stride + count && before[i] == 0 then value else before[i]
    ensures forall px: int, py: int | 0 <= px < stride && 0 <= py < height ::
      At(after, stride, px, py) ==
        if py == y && px < count && At(before, stride, px, py) == 0 then value else At(before, stride, px, py)
  {
    forall px: int, py: int | 0 <= px < stride && 0 <= py < height
      ensures At(after, stride, px, py) ==
        if py == y && px < count && At(before, stride, px, py) == 0 then value else At(before, stride, px, py)
    {
      RunIsInOneRow(stride, 0, y, count, px, py);
      InsideBuffer(stride, height, px, py, 1);
    }
  }
}
