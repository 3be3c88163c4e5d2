/** A model of motion_displayer.BlockSegmenterLink: one link of a chain of
    handlers that each process a video and then pass it on. This link cuts
    every unmodified frame into block regions and stores them on the frame.

    The scan keeps a single pair of counters and advances x and y together, so
    it visits the blocks on the diagonal of the block grid only, and stops as
    soon as either coordinate leaves the frame. Pixel copies into the blocks
    are not modelled: a block is its region of interest and its search area. */
module BlockSegmentation {

  /** An OpenCV-style rectangle: top-left corner, width and height. */
  datatype Rect = Rect(x: int, y: int, width: int, height: int)

  /** One block as the scan builds it: the region cut from the frame and the
      rectangle in which its match will be searched. */
  datatype Block = Block(roi: Rect, searchArea: Rect)

  /** The block the scan builds in its k-th step. */
  function BlockAt(k: nat, blockWidth: int, blockHeight: int): Block
  {
    var r := Rect(k * blockWidth, k * blockHeight, blockWidth - 1, blockHeight - 1);
    Block(r, r)
  }

  /** Whether the origin reached after k steps is still inside the frame,
      i.e. whether the scan's exit test fails there. */
  predicate OriginInside(k: nat, width: int, height: int, blockWidth: int, blockHeight: int)
  {
    k * blockWidth < width && k * blockHeight < height
  }

  function CeilDiv(a: int, b: int): int
    requires 0 < b
  {
    (a + b - 1) / b
  }

  function Min(a: int, b: int): int
  {
    if a <= b then a else b
  }

  /** min(ceil(width / blockWidth), ceil(height / blockHeight)), and 0 for an empty frame. */
  function ScanLength(width: int, height: int, blockWidth: int, blockHeight: int): nat
    requires 0 < blockWidth && 0 < blockHeight
  {
    var c := Min(CeilDiv(width, blockWidth), CeilDiv(height, blockHeight));
    if c < 0 then 0 else c
  }

  /** The blocks one frame receives. */
  function DiagonalBlocks(width: int, height: int, blockWidth: int, blockHeight: int): (r: seq<Block>)
    requires 0 < blockWidth && 0 < blockHeight
  {
    seq(ScanLength(width, height, blockWidth, blockHeight), k requires 0 <= k => BlockAt(k, blockWidth, blockHeight))
  }

  /** OpenCV's test when a region of interest is cut from a width x height
      frame: the rectangle must have non-negative sizes and lie wholly inside. */
  predicate RoiInsideFrame(r: Rect, width: int, height: int)
  {
    0 <= r.x && 0 <= r.width && r.x + r.width <= width &&
    0 <= r.y && 0 <= r.height && r.y + r.height <= height
  }

  /** Whether every block the diagonal scan builds can be cut from the frame. */
  ghost predicate ScanFits(width: int, height: int, blockWidth: int, blockHeight: int)
    requires 0 < blockWidth && 0 < blockHeight
  {
    forall k: nat :: k < ScanLength(width, height, blockWidth, blockHeight) ==>
      RoiInsideFrame(BlockAt(k, blockWidth, blockHeight).roi, width, height)
  }

  lemma CeilDivBounds(a: int, b: int)
    requires 0 < b
    ensures (CeilDiv(a, b) - 1) * b < a <= CeilDiv(a, b) * b
  {
  }

  lemma NegativeProduct(a: int, b: int)
    requires a < 0 < b
    ensures a * b < 0
  {
  }

  lemma MulLess(k: int, c: int, b: int)
    requires 0 <= k < c && 0 < b
    ensures k * b <= (c - 1) * b
  {
  }

  /** Every step before the closed-form length passes the scan's exit test:
      its origin is still inside the frame. */
  lemma ScanStepsInside(width: int, height: int, blockWidth: int, blockHeight: int)
    requires 0 < blockWidth && 0 < blockHeight
    ensures forall k: nat :: k < ScanLength(width, height, blockWidth, blockHeight) ==>
              OriginInside(k, width, height, blockWidth, blockHeight)
  {
    var cw, ch := CeilDiv(width, blockWidth), CeilDiv(height, blockHeight);
    CeilDivBounds(width, blockWidth);
    CeilDivBounds(height, blockHeight);
    forall k: nat | k < ScanLength(width, height, blockWidth, blockHeight)
      ensures OriginInside(k, width, height, blockWidth, blockHeight)
    {
      MulLess(k, cw, blockWidth);
      MulLess(k, ch, blockHeight);
    }
  }

  /** The step at the closed-form length fails the exit test, so the scan stops there. */
  lemma ScanExitsAtLength(width: int, height: int, blockWidth: int, blockHeight: int)
    requires 0 < blockWidth && 0 < blockHeight
    ensures !OriginInside(ScanLength(width, height, blockWidth, blockHeight), width, height, blockWidth, blockHeight)
  {
    var cw, ch := CeilDiv(width, blockWidth), CeilDiv(height, blockHeight);
    var n := ScanLength(width, height, blockWidth, blockHeight);
    if cw <= ch {
      CeilDivBounds(width, blockWidth);
      if cw < 0 {
        NegativeProduct(cw, blockWidth);
      }
      assert n * blockWidth >= width;
    } else {
      CeilDivBounds(height, blockHeight);
      if ch < 0 {
        NegativeProduct(ch, blockHeight);
      }
      assert n * blockHeight >= height;
    }
  }

  /** Only the last block of the scan can overhang the frame, so the scan fits
      exactly when that last block ends within the frame's width and height. */
  lemma ScanFitsIff(width: int, height: int, blockWidth: int, blockHeight: int)
    requires 0 < blockWidth && 0 < blockHeight
    ensures var n := ScanLength(width, height, blockWidth, blockHeight);
            ScanFits(width, height, blockWidth, blockHeight) <==>
            (n == 0 || (n * blockWidth - 1 <= width && n * blockHeight - 1 <= height))
  {
    var n := ScanLength(width, height, blockWidth, blockHeight);
    if n > 0 {
      var last := BlockAt(n - 1, blockWidth, blockHeight).roi;
      assert last.x + last.width == n * blockWidth - 1;
      assert last.y + last.height == n * blockHeight - 1;
      if n * blockWidth - 1 <= width && n * blockHeight - 1 <= height {
        forall k: nat | k < n
          ensures RoiInsideFrame(BlockAt(k, blockWidth, blockHeight).roi, width, height)
        {
          MulLess(k, n, blockWidth);
          MulLess(k, n, blockHeight);
          assert (n - 1) * blockWidth + blockWidth == n * blockWidth;
          assert (n - 1) * blockHeight + blockHeight == n * blockHeight;
        }
      }
    }
  }

  /** Two geometries on which the last diagonal block overhangs the frame:
      4 x 4 blocks on a 10 x 10 frame (the third block reaches x = 11) and
      16 x 16 blocks on a 1920 x 1080 frame (block 67 reaches y = 1087);
      and one on which it fits: 4 x 4 blocks on a 16 x 16 frame. */
  lemma OverhangExamples()
    ensures !ScanFits(10, 10, 4, 4)
    ensures !ScanFits(1920, 1080, 16, 16)
    ensures ScanFits(16, 16, 4, 4)
  {
    ScanFitsIff(10, 10, 4, 4);
    ScanFitsIff(1920, 1080, 16, 16);
    ScanFitsIff(16, 16, 4, 4);
  }

  /** The scan of one frame: the loop of BlockSegmenterLink.handle, collecting
      the blocks it builds. rejected is OpenCV refusing to cut a block that does
      not lie inside the frame; the scan stops there. */
  method ScanBlocks(width: int, height: int, blockWidth: int, blockHeight: int)
    returns (blocks: seq<Block>, rejected: bool)
    requires 0 < blockWidth && 0 < blockHeight
    ensures rejected <==> !ScanFits(width, height, blockWidth, blockHeight)
    ensures !rejected ==> |blocks| == ScanLength(width, height, blockWidth, blockHeight)
    ensures forall k :: 0 <= k < |blocks| ==> blocks[k] == BlockAt(k, blockWidth, blockHeight)
    ensures forall b :: b in blocks ==>
              0 <= b.roi.x < width && 0 <= b.roi.y < height &&
              RoiInsideFrame(b.roi, width, height) &&
              b.roi.width == blockWidth - 1 && b.roi.height == blockHeight - 1 &&
              b.searchArea == b.roi
  {
    ScanStepsInside(width, height, blockWidth, blockHeight);
    ScanExitsAtLength(width, height, blockWidth, blockHeight);
    var n := ScanLength(width, height, blockWidth, blockHeight);
    var currentX, currentY := 0, 0;
    blocks, rejected := [], false;
    while true
      invariant |blocks| <= n
      invariant currentX == |blocks| * blockWidth && currentY == |blocks| * blockHeight
      invariant forall k :: 0 <= k < |blocks| ==> blocks[k] == BlockAt(k, blockWidth, blockHeight)
      invariant forall b :: b in blocks ==>
                  0 <= b.roi.x < width && 0 <= b.roi.y < height && RoiInsideFrame(b.roi, width, height)
      decreases n - |blocks|
    {
      if currentX >= width || currentY >= height {
        assert !OriginInside(|blocks|, width, height, blockWidth, blockHeight);
        assert |blocks| == n;
        assert forall k: nat :: k < n ==> RoiInsideFrame(BlockAt(k, blockWidth, blockHeight).roi, width, height) by {
          forall k: nat | k < n
            ensures RoiInsideFrame(BlockAt(k, blockWidth, blockHeight).roi, width, height)
          {
            assert blocks[k] in blocks;
          }
        }
        break;
      }
      assert OriginInside(|blocks|, width, height, blockWidth, blockHeight);
      assert (|blocks| + 1) * blockWidth == currentX + blockWidth;
      assert (|blocks| + 1) * blockHeight == currentY + blockHeight;
      var roi := Rect(currentX, currentY, blockWidth - 1, blockHeight - 1);
      if !RoiInsideFrame(roi, width, height) {
        assert roi == BlockAt(|blocks|, blockWidth, blockHeight).roi;
        rejected := true;
        return;
      }
      var searchArea := Rect(currentX, currentY, blockWidth - 1, blockHeight - 1);
      blocks := blocks + [Block(roi, searchArea)];
      currentX := currentX + blockWidth;
      currentY := currentY + blockHeight;
    }
  }

  /** The scan only visits the diagonal of the block grid: no block origin is
      (i * blockWidth, j * blockHeight) with i != j. */
  lemma OffDiagonalNeverVisited(width: int, height: int, blockWidth: int, blockHeight: int, i: nat, j: nat)
    requires 0 < blockWidth && 0 < blockHeight
    requires i != j
    ensures forall b :: b in DiagonalBlocks(width, height, blockWidth, blockHeight) ==>
              b.roi.x != i * blockWidth || b.roi.y != j * blockHeight
  {
    var bs := DiagonalBlocks(width, height, blockWidth, blockHeight);
    forall b | b in bs
      ensures b.roi.x != i * blockWidth || b.roi.y != j * blockHeight
    {
      var k :| 0 <= k < |bs| && bs[k] == b;
      if b.roi.x == i * blockWidth && b.roi.y == j * blockHeight {
        MulCancel(k, i, blockWidth);
        MulCancel(k, j, blockHeight);
        assert false;
      }
    }
  }

  lemma MulCancel(a: nat, b: nat, c: int)
    requires 0 < c && a * c == b * c
    ensures a == b
  {
  }

  /** A frame of the video; the scan stores its blocks on it. */
  class VideoFrame {
    var blocks: seq<Block>

    constructor ()
      ensures blocks == []
    {
      blocks := [];
    }
  }

  /** The parts of VideoFile the segmenter uses. handledBy is a record, kept
      for the proof only, of the links that have handled the video, in order. */
  class VideoFile {
    const frameWidth: int
    const frameHeight: int
    const blockWidth: int
    const blockHeight: int
    const unmodifiedFrames: seq<VideoFrame>
    ghost var handledBy: seq<BlockSegmenterLink>

    constructor (frameWidth: int, frameHeight: int, blockWidth: int, blockHeight: int, frames: seq<VideoFrame>)
      ensures this.frameWidth == frameWidth && this.frameHeight == frameHeight
      ensures this.blockWidth == blockWidth && this.blockHeight == blockHeight
      ensures unmodifiedFrames == frames && handledBy == []
    {
      this.frameWidth := frameWidth;
      this.frameHeight := frameHeight;
      this.blockWidth := blockWidth;
      this.blockHeight := blockHeight;
      unmodifiedFrames := frames;
      handledBy := [];
    }
  }

  class BlockSegmenterLink {
    var next: BlockSegmenterLink?
    /** This link followed by every link reachable through next. */
    ghost var Chain: seq<BlockSegmenterLink>
    ghost var Repr: set<BlockSegmenterLink>

    /** The chain from this link is finite and acyclic, and Chain lists it. */
    ghost predicate Valid()
      reads this, Repr
      decreases Repr
    {
      this in Repr && |Chain| >= 1 && Chain[0] == this &&
      (next == null ==> Chain == [this] && Repr == {this}) &&
      (next != null ==>
        next in Repr && next.Repr <= Repr && this !in next.Repr &&
        Repr == {this} + next.Repr && Chain == [this] + next.Chain &&
        next.Valid())
    }

    constructor ()
      ensures Valid() && next == null
      ensures Chain == [this] && Repr == {this}
    {
      next := null;
      Chain := [this];
      Repr := {this};
    }

    /** Every link of a valid chain is a distinct object, each points to the
        one after it, and the last one has no successor. */
    lemma {:induction false} ChainShape()
      requires Valid()
      ensures forall l :: l in Chain <==> l in Repr
      ensures forall i, j :: 0 <= i < j < |Chain| ==> Chain[i] != Chain[j]
      ensures forall i :: 0 <= i < |Chain| - 1 ==> Chain[i].next == Chain[i + 1]
      ensures Chain[|Chain| - 1].next == null
      decreases Repr
    {
      if next != null {
        next.ChainShape();
        forall i, j | 0 <= i < j < |Chain|
          ensures Chain[i] != Chain[j]
        {
          if i == 0 {
            assert Chain[j] == next.Chain[j - 1];
            assert Chain[j] in next.Repr;
          }
        }
      }
    }

    /** handle: segments every unmodified frame, then forwards the video to the
        next link, if any. rejected is the exception OpenCV raises when a block
        does not lie inside the frame: every frame has the same geometry, so it
        is raised on the first frame, before anything is stored or forwarded. */
    method Handle(video: VideoFile) returns (rejected: bool)
      requires Valid()
      requires 0 < video.blockWidth && 0 < video.blockHeight
      modifies video, video.unmodifiedFrames
      ensures rejected <==>
                |video.unmodifiedFrames| > 0 &&
                !ScanFits(video.frameWidth, video.frameHeight, video.blockWidth, video.blockHeight)
      ensures !rejected ==>
                (forall f :: f in video.unmodifiedFrames ==>
                  f.blocks == DiagonalBlocks(video.frameWidth, video.frameHeight, video.blockWidth, video.blockHeight)) &&
                video.handledBy == old(video.handledBy) + Chain
      ensures rejected ==>
                (forall f :: f in video.unmodifiedFrames ==> f.blocks == old(f.blocks)) &&
                video.handledBy == old(video.handledBy) + [this]
      decreases Repr
    {
      video.handledBy := video.handledBy + [this];
      var frames := video.unmodifiedFrames;
      var expected := DiagonalBlocks(video.frameWidth, video.frameHeight, video.blockWidth, video.blockHeight);
      var i := 0;
      while i < |frames|
        invariant 0 <= i <= |frames|
        invariant i > 0 ==> ScanFits(video.frameWidth, video.frameHeight, video.blockWidth, video.blockHeight)
        invariant forall j :: 0 <= j < i ==> frames[j].blocks == expected
        invariant i == 0 ==> forall f :: f in frames ==> f.blocks == old(f.blocks)
        invariant video.handledBy == old(video.handledBy) + [this]
      {
        var blocks, scanRejected := ScanBlocks(video.frameWidth, video.frameHeight, video.blockWidth, video.blockHeight);
        if scanRejected {
          return true;
        }
        assert blocks == expected;
        frames[i].blocks := blocks;
        i := i + 1;
      }
      rejected := false;
      assert |frames| > 0 ==> ScanFits(video.frameWidth, video.frameHeight, video.blockWidth, video.blockHeight);
      if next != null {
        rejected := next.Handle(video);
      }
    }

    /** The links of a possibly absent chain. */
    static ghost function ChainOf(link: BlockSegmenterLink?): seq<BlockSegmenterLink>
      reads link
    {
      if link == null then [] else link.Chain
    }

    static ghost function ReprOf(link: BlockSegmenterLink?): set<BlockSegmenterLink>
      reads link
    {
      if link == null then {} else link.Repr
    }

    /** addLink: attaches a chain at the end of this one. */
    method AddLink(link: BlockSegmenterLink?)
      requires Valid()
      requires link != null ==> link.Valid() && Repr !! link.Repr
      modifies Repr
      ensures Valid()
      ensures Chain == old(Chain) + ChainOf(link)
      ensures Repr == old(Repr) + ReprOf(link)
      ensures forall l :: l in old(Repr) && l != old(Chain[|Chain| - 1]) ==> l.next == old(l.next)
      ensures old(Chain[|Chain| - 1]).next == link
      decreases Repr
    {
      if next != null {
        next.AddLink(link);
        Chain := [this] + next.Chain;
        Repr := {this} + next.Repr;
      } else {
        next := link;
        if link != null {
          Chain := [this] + link.Chain;
          Repr := {this} + link.Repr;
        }
      }
    }
  }
}
