/** How the levels of all trees lie in memory: one array of level structures, and one array of bytes
    that holds the blocks of every level too large to keep them in its own structure. */
module TreeLayout {
  import opened RangeLists
  import opened TreeGeometry

  /** Blocks that a level structure holds itself: as many bytes as a pointer has. */
  const IN_PLACE_BLOCKS: nat := 8

  /** A level of the tree of the range `[start, end)`. */
  datatype LevelShape = LevelShape(start: nat, end: nat, height: nat)
  {
    function FirstBlock(): nat { First(start, height) }

    function Blocks(): int { NumBlocks(start, end, height) }

    /** Bytes that the level takes from the shared array. */
    function OutSize(): nat { if Blocks() > IN_PLACE_BLOCKS then Blocks() else 0 }
  }

  /** Levels of at most eight blocks take no room outside their own structure, larger ones a byte for each block. */
  lemma OutOfLineIff(shape: LevelShape)
    ensures shape.OutSize() == if shape.Blocks() <= 8 then 0 else shape.Blocks()
  {
  }

  /** The levels of one tree, the root first. */
  function Shapes(start: nat, end: nat): (s: seq<LevelShape>)
    ensures |s| == NumLevels(start, end)
    ensures forall l | 0 <= l < |s| :: s[l] == LevelShape(start, end, NumLevels(start, end) - 1 - l)
  {
    seq(NumLevels(start, end), l requires 0 <= l < NumLevels(start, end) => LevelShape(start, end, NumLevels(start, end) - 1 - l))
  }

  /** The levels of all trees, in the order in which they are created. */
  function AllShapes<K>(trees: seq<Range<K>>): seq<LevelShape> {
    if trees == [] then []
    else
      var n := |trees| - 1;
      AllShapes(trees[..n]) + Shapes(trees[n].start, trees[n].end)
  }

  /** Position of the first level of tree `t`. */
  function LevelBase<K>(trees: seq<Range<K>>, t: nat): nat
    requires t <= |trees|
  {
    |AllShapes(trees[..t])|
  }

  lemma ShapesStep<K>(trees: seq<Range<K>>, t: nat)
    requires t < |trees|
    ensures AllShapes(trees[..t + 1]) == AllShapes(trees[..t]) + Shapes(trees[t].start, trees[t].end)
    ensures LevelBase(trees, t + 1) == LevelBase(trees, t) + NumLevels(trees[t].start, trees[t].end)
  {
    assert trees[..t + 1][..t] == trees[..t];
  }

  lemma {:induction false} ShapesPrefix<K>(trees: seq<Range<K>>, t: nat)
    requires t <= |trees|
    ensures AllShapes(trees[..t]) <= AllShapes(trees)
    decreases |trees|
  {
    if t == |trees| {
      assert trees[..t] == trees;
    } else {
      var n := |trees| - 1;
      ShapesPrefix(trees[..n], t);
      assert trees[..n][..t] == trees[..t];
    }
  }

  /** The levels of tree `t` lie together, the root first. */
  lemma ShapeAt<K>(trees: seq<Range<K>>, t: nat, l: nat)
    requires t < |trees| && l < NumLevels(trees[t].start, trees[t].end)
    ensures LevelBase(trees, t) + l < LevelBase(trees, t + 1) <= |AllShapes(trees)|
    ensures AllShapes(trees)[LevelBase(trees, t) + l] ==
            LevelShape(trees[t].start, trees[t].end, NumLevels(trees[t].start, trees[t].end) - 1 - l)
  {
    ShapesStep(trees, t);
    ShapesPrefix(trees, t + 1);
    assert AllShapes(trees)[LevelBase(trees, t) + l] == AllShapes(trees[..t + 1])[LevelBase(trees, t) + l];
  }

  lemma {:induction false} BaseMonotone<K>(trees: seq<Range<K>>, t: nat, u: nat)
    requires t <= u <= |trees|
    ensures LevelBase(trees, t) <= LevelBase(trees, u)
    decreases u
  {
    if t < u {
      BaseMonotone(trees, t, u - 1);
      ShapesStep(trees, u - 1);
    }
  }

  // ----- Offsets in the shared array -----

  /** Bytes of the shared array that the first `x` levels take. */
  function Offset(shapes: seq<LevelShape>, x: nat): nat
    requires x <= |shapes|
  {
    if x == 0 then 0 else Offset(shapes, x - 1) + shapes[x - 1].OutSize()
  }

  lemma {:induction false} OffsetMonotone(shapes: seq<LevelShape>, x: nat, y: nat)
    requires x <= y <= |shapes|
    ensures Offset(shapes, x) <= Offset(shapes, y)
    decreases y
  {
    hide LevelShape.OutSize;
    if x < y {
      OffsetMonotone(shapes, x, y - 1);
    }
  }

  lemma OffsetStep(shapes: seq<LevelShape>, x: nat)
    requires x < |shapes|
    ensures Offset(shapes, x + 1) == Offset(shapes, x) + shapes[x].OutSize()
  {
  }

  lemma SliceBefore(shapes: seq<LevelShape>, x: nat, y: nat)
    requires x < y <= |shapes|
    ensures Offset(shapes, x) + shapes[x].OutSize() <= Offset(shapes, y)
  {
    hide Offset, LevelShape.OutSize;
    OffsetStep(shapes, x);
    OffsetMonotone(shapes, x + 1, y);
  }

  /** The slices of different levels do not overlap, and all lie within the shared array. */
  lemma SlicesApart(shapes: seq<LevelShape>, x: nat, y: nat)
    requires x < |shapes| && y < |shapes|
    ensures Offset(shapes, x) + shapes[x].OutSize() <= Offset(shapes, |shapes|)
    ensures x < y ==> Offset(shapes, x) + shapes[x].OutSize() <= Offset(shapes, y)
    ensures y < x ==> Offset(shapes, y) + shapes[y].OutSize() <= Offset(shapes, x)
  {
    hide Offset, LevelShape.OutSize;
    SliceBefore(shapes, x, |shapes|);
    if x < y {
      SliceBefore(shapes, x, y);
    } else if y < x {
      SliceBefore(shapes, y, x);
    }
  }

  lemma {:induction false} OffsetPrefix(shapes: seq<LevelShape>, more: seq<LevelShape>, x: nat)
    requires shapes <= more && x <= |shapes|
    ensures Offset(shapes, x) == Offset(more, x)
  {
    hide LevelShape.OutSize;
    if x > 0 {
      OffsetPrefix(shapes, more, x - 1);
    }
  }

  // ----- Level structures and their blocks -----

  datatype BlockStorage =
    | OutOfLine(offset: nat)
    | InPlace(bytes: seq<nat>)

  datatype TreeLevel = TreeLevel(startMappedAddress: nat, blockSize: nat, numBlocks: nat, blocks: BlockStorage)

  /** A level structure has the shape it should, and its blocks lie where they should. */
  predicate Fits(level: TreeLevel, shape: LevelShape, offset: nat) {
    && level.startMappedAddress == shape.FirstBlock() * BlockSize(shape.height)
    && level.blockSize == BlockSize(shape.height)
    && level.numBlocks == shape.Blocks()
    && (if level.numBlocks > IN_PLACE_BLOCKS then level.blocks == OutOfLine(offset)
        else level.blocks.InPlace? && |level.blocks.bytes| == IN_PLACE_BLOCKS)
  }

  ghost predicate LevelFits(levels: seq<TreeLevel>, shapes: seq<LevelShape>, x: nat)
    requires x < |levels| && x < |shapes|
  {
    Fits(levels[x], shapes[x], Offset(shapes, x))
  }

  ghost predicate LaidOut(levels: seq<TreeLevel>, blocks: seq<nat>, shapes: seq<LevelShape>) {
    && |levels| == |shapes|
    && |blocks| == Offset(shapes, |shapes|)
    && forall x {:trigger LevelFits(levels, shapes, x)} | 0 <= x < |levels| :: LevelFits(levels, shapes, x)
  }

  /** The blocks of level `x`. */
  ghost function Bytes(levels: seq<TreeLevel>, blocks: seq<nat>, shapes: seq<LevelShape>, x: nat): (bytes: seq<nat>)
    requires LaidOut(levels, blocks, shapes) && x < |levels|
    ensures |bytes| == levels[x].numBlocks == shapes[x].Blocks()
  {
    assert LevelFits(levels, shapes, x);
    SlicesApart(shapes, x, x);
    match levels[x].blocks
    case OutOfLine(offset) => blocks[offset..offset + levels[x].numBlocks]
    case InPlace(bytes) => bytes[..levels[x].numBlocks]
  }

  /** Writing one byte of the shared array in the slice of level `x` changes that level alone. */
  lemma OutOfLineWrite(levels: seq<TreeLevel>, blocks: seq<nat>, shapes: seq<LevelShape>, x: nat, i: nat, v: nat, y: nat)
    requires LaidOut(levels, blocks, shapes) && x < |levels| && i < levels[x].numBlocks && y < |levels|
    requires levels[x].numBlocks > IN_PLACE_BLOCKS
    ensures Offset(shapes, x) + i < |blocks|
    ensures var blocks1 := blocks[Offset(shapes, x) + i := v];
            && LaidOut(levels, blocks1, shapes)
            && Bytes(levels, blocks1, shapes, y) ==
               if y == x then Bytes(levels, blocks, shapes, x)[i := v] else Bytes(levels, blocks, shapes, y)
  {
    assert LevelFits(levels, shapes, x) && LevelFits(levels, shapes, y);
    SlicesApart(shapes, x, y);
    SlicesApart(shapes, y, x);
  }

  /** Writing one byte in the structure of level `x` changes that level alone. */
  lemma InPlaceWrite(levels: seq<TreeLevel>, blocks: seq<nat>, shapes: seq<LevelShape>, x: nat, i: nat, v: nat, y: nat)
    requires LaidOut(levels, blocks, shapes) && x < |levels| && i < levels[x].numBlocks && y < |levels|
    requires levels[x].numBlocks <= IN_PLACE_BLOCKS
    ensures levels[x].blocks.InPlace? && i < |levels[x].blocks.bytes|
    ensures var levels1 := levels[x := levels[x].(blocks := InPlace(levels[x].blocks.bytes[i := v]))];
            && LaidOut(levels1, blocks, shapes)
            && Bytes(levels1, blocks, shapes, y) ==
               if y == x then Bytes(levels, blocks, shapes, x)[i := v] else Bytes(levels, blocks, shapes, y)
  {
    assert LevelFits(levels, shapes, x) && LevelFits(levels, shapes, y);
    var levels1 := levels[x := levels[x].(blocks := InPlace(levels[x].blocks.bytes[i := v]))];
    forall z | 0 <= z < |levels1|
      ensures LevelFits(levels1, shapes, z)
    {
      assert LevelFits(levels, shapes, z);
    }
  }
}
