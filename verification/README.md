# Motion Displayer: frame loop and block segmenter, modelled in Dafny

Motion Displayer reads a video and writes a copy with motion vectors drawn on it. This project models two components of that program and proves properties about them.

- **`VideoProcessor`** (module `VideoProcessing`, `video_processor.dfy`) drives the frame loop. It reads frames from the video capture. The first frame goes to the video writer unannotated and is kept as the comparison frame. Every later frame goes through the motion-vector calculator against that comparison frame and is then written. After each write, the loop stops with `FileNotFoundException` if the output file no longer exists. When a read returns no frame, the loop sets the processed-frame counter to the video's declared frame count, releases the writer and the capture, and returns. The processor also reports progress and an estimate of the remaining time, computed from two counters.
- **`BlockSegmenterLink`** (module `BlockSegmentation`, `block_segmenter_link.dfy`) is one link in a chain of video handlers. For each unmodified frame, its `handle` builds block regions with one pair of counters that moves x and y together. The blocks therefore lie on the diagonal of the block grid. The scan stops as soon as either coordinate leaves the frame. It stores the blocks on the frame and then forwards the video to the next link. Cutting a block whose region of interest overhangs the frame makes OpenCV throw. Only the last diagonal block can overhang, and all frames share one size, so `handle` then throws on the first frame. `addLink` appends a link at the end of the chain by recursion.

How OpenCV and the environment appear in the model:

- The video capture is a sequence of read results, `seq<Option<Frame>>`. `None` is a failed read (Java's `null`), and a read past the end also fails.
- The video writer is the field `written`, which grows by appending.
- The `release` calls on the writer and the capture are the flag `released`.
- `CalculateMotionVector.processFrame` is a caller-supplied function `annotate: (Frame, Frame) -> Frame`. It is given the frame being processed and the comparison frame.
- `Files.exists(outPath)` after the i-th write is the oracle `pathExists(i)`.
- The duration of the i-th iteration, which the source measures with `System.nanoTime`, is the oracle `durationMs(i)`.
- A frame is an identity token. Pixels are not modelled.

What the model captures of the code as written:

- **Pinned comparison frame.** `previous_frame` is assigned once, to the first frame, and never changes after that. So every later frame is annotated against frame 1, not against the frame just before it. `Expected` and `ProcessVideo` state this.
- **Empty stream.** When the very first read fails, the code hands `null` to `VideoWriter.write`. OpenCV's Java binding dereferences its argument, so this throws, and nothing is counted or released. The model returns `Failed(NullFrame)` here. A design that ends cleanly with zero frames processed would behave differently; the model follows the code.
- **Undeclared `blocks`.** `handle` passes an undeclared `blocks` to `setBlocks` and calls `getFrame` on a `Mat`, so the file does not compile as written. The model follows the evident intent. The blocks built for a frame (the region of interest and the search area of each) are collected in order, using the imported `LinkedList`, and stored on the frame.

## Model

| member | source | states |
|---|---|---|
| `VideoProcessing.StreamEndFrom` | src/main/java/motion_displayer/model/VideoProcessor.java:47-60 | Reading on from position i, the first failed read is at e >= i. Every read in [i, e) yields a frame. e lies within the stream unless the read at i itself fails. |
| `VideoProcessing.StreamEnd` | src/main/java/motion_displayer/model/VideoProcessor.java:45-61 | The loop leaves through the end-of-stream branch at the first failed read after the first one, at index e >= 1. Every read in [1, e) yields a frame. |
| `VideoProcessing.Expected` | src/main/java/motion_displayer/model/VideoProcessor.java:48-56 | A run that is not aborted writes exactly StreamEnd frames. The first is the first frame read, unannotated. Write j >= 1 is `processFrame(frame j, frame 1)`, so the comparison frame is never reassigned. |
| `VideoProcessing.FirstMissingFrom` | src/main/java/motion_displayer/model/VideoProcessor.java:30-35 | The first write in [i, n) after which the output file is missing, or n if there is none. All earlier writes found the file. |
| `VideoProcessing.FirstMissing` | src/main/java/motion_displayer/model/VideoProcessor.java:30-35 | The index of the write that raises `FileNotFoundException`, or n if none of the first n writes does. |
| `VideoProcessing.SumDurationsMonotone` | src/main/java/motion_displayer/model/VideoProcessor.java:62-64 | The summed processing time never decreases as iterations complete, because each adds a non-negative duration. |
| `VideoProcessing.JavaDiv` | src/main/java/motion_displayer/model/VideoProcessor.java:79 | Java's `/` on integers truncates toward zero. It agrees with floor division for a non-negative dividend and a positive divisor. Its sign follows the operands' signs, and abs(q)·abs(b) <= abs(a) < (abs(q)+1)·abs(b). |
| `VideoProcessing.AverageTimesRemainingBounds` | src/main/java/motion_displayer/model/VideoProcessor.java:79-80 | With s >= 0, p > 0 and rem >= 0: (s / p)·rem is non-negative and never exceeds the exact s·rem/p. It falls short of it by less than rem. |
| `VideoProcessing.VideoProcessor.constructor` | src/main/java/motion_displayer/model/VideoProcessor.java:11-17 | A new processor has processed no frames, summed no time, written nothing and released nothing. |
| `VideoProcessing.VideoProcessor.WriteFrame` | src/main/java/motion_displayer/model/VideoProcessor.java:30-35 | A non-null frame is appended to the sink, and the write fails with `FileNotFound` exactly when the output file is absent afterwards. A null frame fails without reaching the sink. |
| `VideoProcessing.VideoProcessor.ProcessVideo` | src/main/java/motion_displayer/model/VideoProcessor.java:37-68 | The whole run in three cases. (1) First read fails: `Failed(NullFrame)` and nothing changes. (2) Some write k < StreamEnd loses the output file: `Failed(FileNotFound)`. The sink holds the first k+1 expected frames, the counter has grown by k and the time by the first k durations, and nothing is released. (3) Otherwise: `Completed`. The sink holds all expected frames, the counter equals the declared frame count, the time has grown by exactly the StreamEnd non-terminating durations (the end-of-stream iteration adds none), and the writer and capture are released. In case (3) the ghost result is the counter just before the end-of-stream branch overwrites it: the old counter plus StreamEnd. |
| `VideoProcessing.ProgressNonDecreasing` | src/main/java/motion_displayer/model/VideoProcessor.java:51-59 | A completed run moves the counter through p0, p0+1, …, p0+n (one step per written frame) and then to the frame count. With a positive frame count, progress read after every step never goes backwards exactly when p0 + n <= frame count. So the end-of-stream assignment at line 59 lowers progress exactly when the declared frame count is smaller than the old counter plus StreamEnd. |
| `VideoProcessing.VideoProcessor.ReadingsAtFrameCount` | src/main/java/motion_displayer/model/VideoProcessor.java:70-82 | Once the counter equals the frame count, as it does after every completed run, `getProcessedFrames` reports the frame count and progress is num = den. For a non-zero frame count the estimate is exactly 0 ms. |
| `VideoProcessing.VideoProcessor.EstimatedProcessingTimeMs` | src/main/java/motion_displayer/model/VideoProcessor.java:78-82 | No estimate (Java's division by zero) exactly when no frame has been processed. With the summed time non-negative and processed > 0, the estimate is exactly (summed / processed) · (count − processed), the average truncated before it is multiplied. When processed <= count it is >= 0. Multiplied by processed, it is at most the exact summed·remaining, and it falls short of that by less than remaining·processed. It is 0 once processed == count. When processed > count it is <= 0. |
| `BlockSegmentation.ScanStepsInside` | src/main/java/motion_displayer/BlockSegmenterLink.java:17-22 | With positive block sizes, let n = min(ceil(W/bw), ceil(H/bh)), or 0 for an empty frame. Every step k < n has its origin (k·bw, k·bh) strictly inside the frame, so the exit test fails there and a block is built. |
| `BlockSegmentation.ScanExitsAtLength` | src/main/java/motion_displayer/BlockSegmenterLink.java:17-20 | At step n = min(ceil(W/bw), ceil(H/bh)), or 0 for an empty frame, n·bw >= W or n·bh >= H. So n is the first step at which the scan exits, and it is the number of blocks per frame. |
| `BlockSegmentation.ScanFitsIff` | src/main/java/motion_displayer/BlockSegmenterLink.java:17-29 | Only the last diagonal block can overhang the frame. So every region of interest the scan builds lies inside the frame exactly when the scan is empty, or when n·bw − 1 <= W and n·bh − 1 <= H for n = ScanLength. |
| `BlockSegmentation.OverhangExamples` | src/main/java/motion_displayer/BlockSegmenterLink.java:22-23 | The last block overhangs for 4×4 blocks on a 10×10 frame (it reaches x = 11) and for 16×16 blocks on a 1920×1080 frame (it reaches y = 1087). It fits for 4×4 blocks on a 16×16 frame. |
| `BlockSegmentation.ScanBlocks` | src/main/java/motion_displayer/BlockSegmenterLink.java:15-31 | The scan of one frame is rejected (OpenCV's ROI check at :23) exactly when some diagonal block does not lie inside the frame, and it stops at that block. Otherwise it terminates after exactly ScanLength steps. Its k-th block has origin (k·bw, k·bh). Every origin is strictly inside the frame, and every region of interest lies inside it. Every region of interest is (bw−1)×(bh−1), and its search area is the same rectangle. |
| `BlockSegmentation.OffDiagonalNeverVisited` | src/main/java/motion_displayer/BlockSegmenterLink.java:28-29 | Because x and y advance together, no block has origin (i·bw, j·bh) with i ≠ j. The scan does not cover the block grid. |
| `BlockSegmentation.BlockSegmenterLink.constructor` | src/main/java/motion_displayer/BlockSegmenterLink.java:10 | A new link has no successor and forms a chain of one. |
| `BlockSegmentation.BlockSegmenterLink.ChainShape` | src/main/java/motion_displayer/BlockSegmenterLink.java:10 | In a valid chain, the links are distinct objects (the chain is acyclic). Each link's `next` is the following link, and the last link's `next` is null. |
| `BlockSegmentation.BlockSegmenterLink.Handle` | src/main/java/motion_displayer/BlockSegmenterLink.java:12-36 | `handle` throws exactly when there is at least one unmodified frame and the diagonal scan does not fit the frame. All frames share one geometry, so it throws on the first frame: no frame's blocks change, and the video is not forwarded. Otherwise every unmodified frame ends up holding the diagonal scan's blocks. The video is then handled by this link and by each later link in chain order, each exactly once; with no successor, it is not forwarded at all. |
| `BlockSegmentation.BlockSegmenterLink.AddLink` | src/main/java/motion_displayer/BlockSegmenterLink.java:38-45 | The appended chain follows the old one, and every earlier link keeps its place. Only the old last link's `next` changes, and it now points to the appended link. The result is still a valid, acyclic chain. A single link appended this way becomes the new last element. Appending null walks to the last link and sets its `next` to null again, so nothing changes. |

## Left out

- Pixel data: `Mat` contents, the copy in `extractNextFrame`, and the copy of each block's pixels (`BlockSegmenterLink.java:23-25`). Frames are identity tokens and blocks are rectangles. OpenCV's check that a region of interest lies inside its frame is modelled as `RoiInsideFrame`. It assumes each frame's size is the video's declared frame width and height.
- `CalculateMotionVector.processFrame` is not part of this model. It is the parameter `annotate`, a total function, so the model assumes it always returns a frame, never null, and never throws.
- `VideoFile` is not part of this model. Only the accessors the two components call appear: the declared frame count, the frame and block sizes, and the list of unmodified frames.
- Timing: `System.nanoTime` and the nanosecond-to-millisecond division are replaced by the caller-supplied non-negative per-iteration durations.
- `Files.exists` is the per-write oracle `pathExists`.
- `VideoProcessing.VideoProcessor.Progress`: returned as an exact ratio rather than a `double`. For a frame count of 0, the ratio keeps denominator 0 where Java yields infinity or NaN. In that case num = den does not mean a progress of 1.
- `VideoProcessing.VideoProcessor.Progress`, `VideoProcessing.VideoProcessor.ProcessedFrames`: plain reads of the counter and the frame count. What they report after a run is stated by `ReadingsAtFrameCount` and `ProcessVideo`.
- Integer widths: `frames_processed` (32-bit), `summed_processing_time_ms` and the ETA product (64-bit), and the scan counters `current_x`/`current_y` (32-bit) are unbounded integers. Overflow is not modelled, because it needs frame counts, durations or frame sizes far beyond any real video.
- `ScanBlocks` and `Handle` require both block sizes to be positive. With positive sizes, the rejection of an overhanging last block is modelled (`ScanFits`, the `rejected` results). The exit test `x >= W || y >= H` needs only one positive size to end the scan. But on a non-empty frame, a block width or height of 0 or less gives the first region of interest a negative width or height, and OpenCV rejects it at `BlockSegmenterLink.java:23`. That exception is not modelled for such sizes. If both sizes are 0 or less, the loop also never ends. On an empty frame the Java scan ends at once whatever the sizes; the model still requires them to be positive.
- The handler chain only holds `BlockSegmenterLink` objects. Other implementations of `VideoProcessorLink` are not part of this model. Appending a chain that shares links with this one, which would make it cyclic, is excluded by `AddLink`'s precondition.
- The `Duration` wrapper of the estimate is left out. The estimate is a number of milliseconds.
- The configuration screen (`view/ConfigureOptionsState.java`) is user-interface code and is not modelled.
