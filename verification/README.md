# vnm_terminal: verified models of six components

This project models six components of the terminal in Dafny and proves what they are for.

* **Sixel decoder** (`SixelManual`, `SixelColours`, `SixelReading`, `SixelLanguage`, `SixelPainter`, `SixelCore`,
  `SixelRefinement`, `SixelRaster`, `SixelBudget`, `SixelDecoder`, `SixelRuns`, `RasterIndex`). `SixelDecoder.Decoder` draws
  into an array with a stride, byte by byte, with deferred band expansion, the capacity policy, saturating cursors and a
  work budget. There are two references. `SixelPainter.Painter` steps over the same parameter state on an unbounded plane,
  where each set bit paints all of its device rows at once and the pixels never drawn are filled at the end.
  `SixelManual` shares nothing with either: it says what a string is (tokens with decimal fields, of which every string of
  bytes is made) and what each token does to a picture, in columns, rows and RGB levels. The main result is
  `SixelRuns.DecodeImage`: for every header, every data, every split into chunks and any budget at each call, the published
  raster has the size and the pixels the manual gives, a limit diagnostic appears exactly when the picture outgrows the
  cap, and the pixels written are at most the units charged.
* **Output capture** (`CaptureDisk`, `CaptureText`, `CaptureScan`, `CaptureSegments`, `CaptureWriter`, `CaptureRuns`). The directory is a map from names to bytes. Every
  directory that a disk step leaves is kept in a history; an append leaves one directory per byte, and any step can fail.
  `CaptureScan.ScanCapture` accepts exactly the directories that `CaptureDisk.WellFormed` describes (consecutive segments,
  no orphaned whole marker, no whole manifest beside an unfinished retained segment). Every method of
  `CaptureWriter.Writer` keeps every directory in the history well formed, whatever fails, so an interruption between any
  two steps leaves a directory that the scan accepts. After every accepted append the retained text is a suffix of the text
  found at the start and all bytes appended since, and its length is within the promised bounds, also for a writer that
  recovered an earlier capture. What survives an interruption is stated of every directory in the history:
  `CaptureWriter.Writer.Append` and, over whole runs of appends and finalizations, `CaptureRuns.Run` leave the end of the
  text retained before and of the bytes given up to some byte.
* **Atlas** (`AtlasUpload`, `AtlasPlanner`, `AtlasUploadRuns`, `AtlasLayout`, `AtlasLayoutBuilder`, `AtlasLayoutPasses`,
  `GlyphPacker`, `GlyphBudget`, `GlyphCache`, `GlyphPrepare`). An incremental buffer upload leaves what a full one would,
  if and only if a stated condition holds; the row-stable layout establishes that condition and loses no instance. Packed
  slots never overlap, gutters included; the pages of the cache stand for a map from keys to first tiles; and writes during
  a prepare never reach the committed cache that shared its storage.
* **Paused output and exit** (`OutputBlocks`, `OutputProtocol`, `OutputRuns`). Each lock-held block is a function on the
  state under the mutex, which a method of `OutputBlocks.Backend` implements; the protocol is a state machine whose steps
  are those blocks and the begin and end of each callback. Public calls that replay the FIFO are activations, any number of
  them at once and nested ones included.
* **Callback gate** (`CallbackGate`). Any number of gates and threads with nested calls; admission, count-down and
  revocation as steps; `CallbackGate.ReturnsUnlessBlocked` says exactly when a revocation can return.
* **Frame text runs** (`TextRuns`, `FrameBuilder`, `CellMasks`). Coalescing of ASCII cells and full blocks, in whole
  columns, against emission cell by cell; and the selection and search masks against the rectangles that paint them.
* **Foreground custody** (`ForegroundCustody`). A fixed table of descriptors over a kernel that answers as it likes; what
  `Empty` may conclude from its last scan.

Where a property turned out not to hold on all inputs, the code is modelled as it is and the exact condition is proved:

* `AtlasUploadRuns.UploadExact`: bytes behind the last whole instance are never compared, and with supplied row ranges a
  change outside all of them is not seen. `TailIsNotUploaded` gives an input. The callers pass whole instances and
  ranges made by the row-stable layout, for which `WholeInstancesComplete` and `LayoutMakesPlansComplete` show the
  condition.
* `TextRuns.ColoursAreExact` and `TextRuns.RectColoursAreExact`: runs and full-block rectangles are joined on the colour
  painted, so a later cell's colour detail is lost. A run or rectangle is exact if and only if all its cells had the
  colours of the first, and `FrameBuilder.BuildFrame` is exact if and only if all its runs and rectangles are; it is
  whenever, among the cells, colours that paint alike are equal. `ColourDetailIsLost` shows the loss for every pair of
  joined cells that differ, and `CellsThatPaintAlike` gives one.
* `OutputBlocks.DerivedLimitsFit`: the FIFO's budget and one read fit between the two queue limits if and only if these are
  at least two bytes apart; `OutputBlocks.LimitsTooClose` gives limits that are not.
* `CallbackGate.ReturnsUnlessBlocked`: some continuation lets a revocation return if and only if its thread is in no set
  of threads each of which revokes a gate that another of them has a call in. A thread of such a set never returns
  (`BlockedForEver`); `BlockedIsReachable` runs from the start into one, with two gates.
* `CaptureText.ReplaceLeavesExact`: an append of at least `max_bytes` replaces what is retained, and the text found after an
  interruption inside it ends what was appended up to some byte, for all bytes of that length, if and only if the append
  has at most `max_bytes` bytes, or `max_bytes` is 1, or nothing was retained. `CaptureWriter.Writer.Append` promises it of
  every directory in the history under that guard, and an accepted append without it has recorded a torn directory;
  `GapEndsNothing` gives the bytes, `GapDirectory` one directory.

Every lemma turns Dafny's automatic induction off, so that its proof is its body.

## Model

| member | source | states |
|---|---|---|
| SixelRuns.DecodeImage | src/sixel_decoder.cpp:189-342 | for every header, chunking and choice of a budget at each call and at the end, the published raster has the size, the pixels, the aspect and the final cursor the manual gives to the header and the joined bytes, a diagnostic is emitted exactly when that picture takes more than the cap, and no more pixels are written than units are charged |
| SixelReading.StringIsRead | src/sixel_decoder.cpp:189-544 | for every header and every string of tokens, reading the bytes makes the picture the manual gives |
| SixelReading.TokenIsRead | src/sixel_decoder.cpp:271-408 | one more token makes one step of the manual, its fields complete only when the next token begins |
| SixelReading.FieldsCollected | src/sixel_decoder.cpp:374-387 | collecting digits and semicolons yields the decimal numbers of the fields, at most 32767 each, the first five kept, an omitted one as zero |
| SixelReading.HeaderIsRead | src/sixel_decoder.cpp:189-219 | the parameters of a header give the manual's aspect ratio, background and colour registers |
| SixelReading.BitsAgree | src/sixel_decoder.cpp:491-521 | the masks select a sixel's binary digits, lowest first |
| SixelReading.RatioIsRoundedUp | src/sixel_decoder.cpp:432-468 | the aspect ratio of a raster command is the quotient rounded up, within its bounds |
| SixelManual.EveryStringHasTokens | src/sixel_decoder.cpp:271-297 | every string of bytes is the text of some tokens |
| SixelManual.NumbersAreRead | src/sixel_decoder.cpp:374-387 | the decimals of some numbers are read as these numbers |
| SixelManual.RasterAlone | src/sixel_decoder.cpp:432-468 | a raster command for a width and a height, after an empty header, makes a picture of that width and height, all background |
| SixelManual.RepeatedSixel | src/sixel_decoder.cpp:491-521 | a sixel after `!` and n draws in just the next n columns, its lowest bit in the top row, each row as high as the aspect, in the pen's colour |
| SixelColours.HlsIsColour | src/sixel_decoder.cpp:104-121 | a colour given in hue, lightness and saturation is packed as the hexcone gives it |
| SixelColours.PercentIsColour | src/sixel_decoder.cpp:91-102 | a colour given in percent of red, green and blue is packed as these, each rounded to a level of 255 |
| SixelColours.DefaultIsColour | src/sixel_decoder.cpp:123-136 | the registers begin with the default palette |
| SixelRuns.RasterIsPublished | src/sixel_decoder.cpp:189-355 | for every width and height up to 32767 within the cap, the bytes of that raster command alone publish just that many columns and rows, all black |
| SixelRuns.EverythingHasMeaning | src/sixel_decoder.cpp:189-297 | every header has fields and every data tokens, so the manual speaks of every image |
| SixelRuns.ChunkIndependence | src/sixel_decoder.cpp:221-297 | any two splits of the same data end in the same decoder state and the same diagnostics, at most one for the image |
| SixelRuns.SplitsAgree | src/sixel_decoder.cpp:221-297 | an image decoded in chunks is the image decoded in one piece, diagnostics included |
| SixelRuns.ChunksProgress | src/sixel_decoder.cpp:221-297 | after any chunks the decoder stands where one call on the joined data would put it, up to the mark that the limit was reported |
| SixelRuns.EndOfRun | src/sixel_decoder.cpp:306-342 | what the terminator adds does not depend on how the data was split |
| SixelRefinement.StringRepresents | src/sixel_decoder.cpp:271-297 | decoding any string keeps the saturated decoder state in step with the unbounded painter |
| SixelRefinement.ByteRepresents | src/sixel_decoder.cpp:271-297 | so does every single byte, pending commands included |
| SixelRefinement.SaturatedProduct | src/sixel_decoder.cpp:25-37 | saturation neither hides nor invents that a picture exceeds the cap, and the product of saturated extents stays below 2^62 |
| SixelRefinement.CursorInsideCap | src/sixel_decoder.cpp:491-521 | a point of a picture within the cap was never saturated |
| SixelRefinement.DrawFits | src/sixel_decoder.cpp:491-521 | every row a draw writes lies inside the capacity, or the cap trips before the write |
| SixelRefinement.ExpansionFits | src/sixel_decoder.cpp:523-544 | every row a band expansion writes lies inside the capacity |
| SixelRefinement.CompletedExtents | src/sixel_decoder.cpp:306-342 | a raster is published exactly when the picture is within the cap and not empty, and then has its true size |
| SixelPainter.PaintSixelAt | src/sixel_decoder.cpp:491-544 | the reference painter sets exactly the device rows of set bits in the repeated columns |
| SixelPainter.DrawKeepsBandShape | src/sixel_decoder.cpp:491-521 | what an open band leaves to be repeated are the rows of its drawn bits within its width |
| SixelRaster.FillStep | src/sixel_decoder.cpp:505-520 | filling the first device row of a set bit shows the painter's rows of that bit, with the copies still deferred |
| SixelRaster.CopyStep | src/sixel_decoder.cpp:523-544 | each row copied completes one more device row of the picture |
| SixelRaster.EndExpansion | src/sixel_decoder.cpp:523-544 | an expanded band shows the picture completely |
| SixelRaster.NextBandShows | src/sixel_decoder.cpp:546-554 | a complete raster stays right when the next band opens |
| SixelCore.ReservationFits | src/sixel_decoder.cpp:556-640 | a reservation covers the request within the cap, narrowed or not, and a hint at most doubles the geometric area |
| SixelCore.GeometricCapacityFits | src/sixel_decoder.cpp:556-640 | geometric growth, also when one side is shrunk, covers the request within the cap |
| SixelCore.SlackSplit | src/sixel_decoder.cpp:556-640 | splitting the slack leaves both sides at least as long as requested |
| SixelCore.HintFits | src/sixel_decoder.cpp:556-640 | the previous image's size enlarges a reservation by at most one doubling and never past the cap |
| SixelCore.GrowthDoubles | src/sixel_decoder.cpp:556-640 | a reservation at least doubles the area while the cap allows it, and else takes all the cap leaves beside one side |
| SixelCore.SlackIsHalved | src/sixel_decoder.cpp:556-640 | what is left beside the width is what it took of the slack, or one column more |
| SixelCore.HintIsOfStableSizes | src/sixel_decoder.cpp:306-355 | the hint is the size of a published image, usable after two whose areas differ by at most a tenth, the later not larger |
| SixelDecoder.Decoder.Reserve | src/sixel_decoder.cpp:556-640 | a reservation copies every drawn pixel into the new raster |
| SixelDecoder.Decoder.GrowExtentWithinLimit | src/sixel_decoder.cpp:642-660 | the raster grows, or is released with the size that exceeded the cap |
| SixelDecoder.Decoder.DrawSixel | src/sixel_decoder.cpp:491-521 | one sixel draws what the painter paints, writing no more pixels than its cost and its reservation, and within the cap exactly so many |
| SixelDecoder.Decoder.StampRows | src/sixel_decoder.cpp:505-520 | the first rows of all set bits are written, and nothing else |
| SixelDecoder.Decoder.ExpandBand | src/sixel_decoder.cpp:523-544 | closing a band completes the picture and writes exactly its cost in pixels |
| SixelDecoder.Decoder.NextLine | src/sixel_decoder.cpp:546-554 | a graphics new line closes the band and moves the cursor as the painter's does |
| SixelDecoder.Decoder.FinishCommand | src/sixel_decoder.cpp:389-408 | a pending command takes effect as in the reference and yields the repeat count |
| SixelDecoder.Decoder.ApplyRasterAttributes | src/sixel_decoder.cpp:432-468 | raster attributes declare the raster only before sixel data, filled or merely reserved; which parameter is the width and which the height is decided by `SixelReading.StringIsRead` |
| SixelDecoder.Decoder.DecodeByte | src/sixel_decoder.cpp:271-297 | one byte steps decoder and painter alike; pixels written are at most the byte's work and its reservations, and within the cap at least that less one |
| SixelDecoder.Decoder.ChargeByte | src/sixel_decoder.cpp:242-264 | a byte is charged its work and what it reserved, at least the pixels written and within the cap at most one unit more |
| SixelDecoder.Decoder.Decode | src/sixel_decoder.cpp:221-269 | decoding stops exactly behind the byte that spends the budget, or at the end, always makes progress, and charges at least the pixels written and, within the cap, at most one unit more for each byte |
| SixelDecoder.Decoder.CompleteRaster | src/sixel_decoder.cpp:306-326 | the end of an image completes the picture and charges for the fill to come |
| SixelDecoder.Decoder.FillBackground | src/sixel_decoder.cpp:306-342 | exactly the never-drawn pixels take register 0 |
| SixelDecoder.Decoder.Finish | src/sixel_decoder.cpp:306-355 | the published image shows the painter's picture and the budget covers every pixel written |
| SixelDecoder.Decoder.Begin | src/sixel_decoder.cpp:189-219 | an image starts from its header's aspect and background, before an unpainted plane |
| SixelDecoder.Decoder.Abort | src/sixel_decoder.cpp:357-364 | an aborted image leaves no raster and no capacity hint |
| SixelDecoder.CostAfterCommand | src/sixel_decoder.cpp:242-264 | the cost taken before a pending command completes still covers the band expansion after it |
| SixelBudget.WorkBudget.ChargeAfter | include/vnm_terminal/internal/sixel_decoder.h:30-78 | all units charged are either taken from the budget or counted as overrun |
| SixelBudget.WorkBudget.Exhausted | include/vnm_terminal/internal/sixel_decoder.h:48-50 | a budget that refused nothing is exhausted exactly when something was charged and all charges reach its units |
| CaptureScan.ScanCapture | src/backend_output_capture.cpp:451-664 | the scan accepts exactly the well-formed directories, among them only such whose odd segments have at most half of max_bytes and even ones at most the rest, fails on one only if a disk step failed, reports the retained suffix and the status, only ever removes files, and leaves only segments and whole markers |
| CaptureDisk.SegmentSizesDecide | src/backend_output_capture.cpp:121-137 | segments pass exactly when odd ones have at most half of max_bytes, even ones at most the rest, and no empty one is finalized |
| CaptureDisk.PairIsAccepted | src/backend_output_capture.cpp:121-137 | a directory with a finalized segment of exactly its size and a shorter one behind it is acceptable |
| CaptureScan.PruneSegment | src/backend_output_capture.cpp:376-384 | the marker goes before its segment, so an interruption in between stays acceptable |
| CaptureScan.PruneTidy | src/backend_output_capture.cpp:625-633 | dropping the oldest segment beyond the limit leaves the rest of the run |
| CaptureScan.CompletionDecides | src/backend_output_capture.cpp:635-654 | a whole manifest is accepted exactly when every retained segment is finalized |
| CaptureScan.RunIffConsecutive | src/backend_output_capture.cpp:614-623 | the listed segments are a run exactly when sequences are consecutive |
| CaptureDisk.RemoveMarkerKeeps | src/backend_output_capture.cpp:376-384 | removing a marker is safe unless a whole manifest relies on it |
| CaptureDisk.RemoveRawKeeps | src/backend_output_capture.cpp:376-384 | removing a segment is safe once its marker is gone and it is the oldest beyond the limit |
| CaptureDisk.WriteRawKeeps | src/backend_output_capture.cpp:1093-1139 | writing to the last segment is safe while there is no manifest |
| CaptureDisk.PublishCompletionKeeps | src/backend_output_capture.cpp:968-979 | publishing the manifest is safe when every retained segment is finalized |
| CaptureText.RetainedTextIsUnique | src/backend_output_capture.cpp:121-137 | a directory retains one text |
| CaptureSegments.AcceptedHasText | src/backend_output_capture.cpp:451-664 | every directory the scan accepts retains a text |
| CaptureText.OldestGoneSameRetained | src/backend_output_capture.cpp:376-384 | removing the oldest segment beyond the limit keeps the retained text |
| CaptureSegments.NewSegmentSurvives | src/backend_output_capture.cpp:1142-1182 | every directory while a new segment is created and written retains the end of the text before and of some of the new bytes |
| CaptureSegments.MoreSurvives | src/backend_output_capture.cpp:917-934 | so does every directory while bytes go to the open segment |
| CaptureText.ReplaceLeavesExact | src/backend_output_capture.cpp:887-896 | what a replacement may leave ends the bytes so far, for all bytes of a length, exactly when nothing is skipped, or one byte is kept, or nothing was retained |
| CaptureText.NoGapEndsSome | src/backend_output_capture.cpp:1229-1256 | under that guard every text a replacement may leave ends what was there and some of the bytes |
| CaptureText.GapEndsNothing | src/backend_output_capture.cpp:1229-1256 | without it there are bytes for which the first byte kept, behind the last old segment, ends nothing that was appended |
| CaptureText.GapDirectory | src/backend_output_capture.cpp:1229-1256 | an acceptable directory that retains "bd" after "ab" and a cut-short append of "cde" under a limit of two bytes |
| CaptureText.SurvivesIfItEndsSome | src/backend_output_capture.cpp:121-137 | a directory shows the append up to some byte exactly when the text it retains does |
| CaptureWriter.PublishMarker | src/backend_output_capture.cpp:666-719 | a marker is published whole, a cut-short one removed first; it fails only on an invalid marker or a disk failure |
| CaptureWriter.Writer.EnsureInitialized | src/backend_output_capture.cpp:1020-1079 | the writer takes up the retained segments; it fails only on a bad configuration, directory or disk |
| CaptureWriter.Writer.OpenAndWriteNewSegment | src/backend_output_capture.cpp:1142-1182 | a new segment follows the run; every interruption inside leaves an acceptable directory |
| CaptureWriter.Writer.WriteCurrent | src/backend_output_capture.cpp:917-934 | bytes go to the open segment, a cut-short write included in the acceptable directories |
| CaptureWriter.Writer.FinalizeCurrentSegment | src/backend_output_capture.cpp:1184-1215 | the open segment gets its marker and is closed |
| CaptureWriter.Writer.PruneRetainedSegments | src/backend_output_capture.cpp:1217-1227 | exactly the last segments up to the limit stay |
| CaptureWriter.Writer.ReplaceWithSuffix | src/backend_output_capture.cpp:1229-1256 | afterwards the retained text is exactly the suffix given, cut behind the size of its first segment into two segments; every directory before that retains the old text, the last old segment and the first part of the suffix, or more of the suffix alone, and the first part was there with each number of bytes |
| CaptureWriter.Writer.InvalidateCompletionManifest | src/backend_output_capture.cpp:1081-1091 | no manifest is left before anything is written |
| CaptureWriter.Writer.AppendPieces | src/backend_output_capture.cpp:898-936 | the loop keeps the retained text a suffix and finalizes full segments before new ones |
| CaptureWriter.Writer.Append | src/backend_output_capture.cpp:873-938 | an accepted append keeps a suffix of all bytes, after the text found at the start; its length is at most max_bytes and at least that of the bytes appended or max_bytes/2 + 1; the writer's own segments but the last have half of max_bytes when odd and the rest when even, and max_bytes bytes or more in an empty directory leave exactly segments 1 and 2; accepted or not, every directory recorded meanwhile retains the end of what was retained and some of the bytes, when there is no gap, and an accepted append with a gap recorded a torn one; a rejection has one of the listed causes and poisons |
| CaptureWriter.Writer.Finalize | src/backend_output_capture.cpp:940-980 | an accepted finalization publishes the manifest with all segments finalized; only a segment left by an earlier writer can be found incomplete; no directory in between retains another text |
| CaptureRuns.Run | src/backend_output_capture.cpp:873-980 | over any sequence of appends and finalizations that skips no bytes, an interruption at any point leaves the end of the text retained before the run and of the bytes given up to some byte; when all were accepted, of all of them |
| CaptureRuns.AppendSurvives | src/backend_output_capture.cpp:873-938 | one more append keeps that of every directory recorded since the run began |
| CaptureSegments.RetainedLength | src/backend_output_capture.cpp:121-137 | alternating capacities retain at most max_bytes and at least the bytes appended or max_bytes/2 + 1 |
| CaptureSegments.OwnSegmentSizes | src/backend_output_capture.cpp:121-137 | what a writer keeps has its own segments filled to half of max_bytes when odd and to the rest when even, the last one at most |
| CaptureSegments.ScannedText | src/backend_output_capture.cpp:1060-1077 | the text a writer takes up is the one the directory retained before the scan cleaned it |
| CaptureSegments.KeepsPruned | src/backend_output_capture.cpp:1217-1227 | pruning keeps the retained text a suffix and the writer's own segments full and finalized |
| CaptureSegments.ScanFindsKept | src/backend_output_capture.cpp:451-664 | a scan of what the writer left reports exactly the writer's segments |
| AtlasUpload.AtlasDirtyRows | src/qsg_atlas_renderer.cpp:969-1006 | a row is dirty exactly when a clamped range holds it, all rows at once exactly when each one is |
| AtlasUpload.ApplyAt | src/qsg_atlas_renderer.cpp:7851-7865 | uploading ranges changes exactly the covered bytes |
| AtlasUpload.AppendCovers | src/qsg_atlas_renderer.cpp:7851-7865 | merging touching ranges covers exactly what was asked for |
| AtlasPlanner.Planner.MakePlan | src/qsg_atlas_renderer.cpp:7751-8034 | exactly which bytes a plan uploads, when it falls back to a full upload, and what it would commit |
| AtlasPlanner.Planner.RowStableUploads | src/qsg_atlas_renderer.cpp:7897-7946 | supplied ranges with a change are uploaded whole, without ranges exactly the changed instances |
| AtlasPlanner.Planner.ChangedUploads | src/qsg_atlas_renderer.cpp:7979-8026 | changed and new instances are uploaded, or one that rows do not explain asks for a full upload |
| AtlasPlanner.Planner.NonRowChange | src/qsg_atlas_renderer.cpp:7948-7965 | a change in an instance outside the rows is found |
| AtlasPlanner.Planner.CopyRanges | src/qsg_atlas_renderer.cpp:7881-7888 | the committed bytes change exactly where the buffer does |
| AtlasPlanner.Planner.Commit | src/qsg_atlas_renderer.cpp:7738-7748 | a valid plan replaces the committed image, an invalid one changes nothing |
| AtlasUploadRuns.UploadExact | src/qsg_atlas_renderer.cpp:7751-8034 | on every buffer that holds the committed bytes the incremental upload equals a full one, if and only if the tail is committed and the supplied ranges contain the changes, or the plan is a full upload |
| AtlasUploadRuns.FullUploadMeans | src/qsg_atlas_renderer.cpp:7751-7977 | everything is uploaded exactly on demand, when nothing is committed, or when an instance changed or told dirty is explained by neither its row nor a range |
| AtlasUploadRuns.UploadsMeans | src/qsg_atlas_renderer.cpp:7897-8026 | otherwise a byte is uploaded exactly when its instance changed or was told dirty, or with ranges supplied when one in its range did |
| AtlasUploadRuns.CommitsCurrent | src/qsg_atlas_renderer.cpp:7881-8033 | then the committed bytes are the current instances |
| AtlasUploadRuns.WholeInstancesComplete | src/qsg_atlas_renderer.cpp:7751-8034 | whole instances and ranges that contain every instance of a row meet the condition, for every layout change, dirty set and fallback |
| AtlasUploadRuns.TailIsNotUploaded | src/qsg_atlas_renderer.cpp:7766-7767 | an input whose changed last byte is neither uploaded nor a reason for a full upload |
| AtlasUploadRuns.RunShowsCurrent | src/qsg_atlas_renderer.cpp:7738-8034 | over any run of frames, buffer recreations and skipped frames included, the buffer starts with the last planned instances |
| AtlasLayout.BucketIsLeast | src/qsg_atlas_renderer.cpp:1973-1985 | a capacity bucket is the least bucket that suffices |
| AtlasLayout.BucketsAre | src/qsg_atlas_renderer.cpp:1973-1985 | the buckets are 0, 8 and the multiples of 32 |
| AtlasLayout.SlotsDistinct | src/qsg_atlas_renderer.cpp:3975-4005 | no two instances share a slot |
| AtlasLayout.EveryItemInItsSlot | src/qsg_atlas_renderer.cpp:3975-4005 | every instance is in its slot, and all other slots are blank row slots |
| AtlasLayout.RowIsInOrder | src/qsg_atlas_renderer.cpp:3945-4005 | each row's slots hold that row's instances in order, then blanks |
| AtlasLayout.OtherRowsUnmoved | src/qsg_atlas_renderer.cpp:3927-4013 | a row with the same instances keeps its slots, whatever the other rows do |
| AtlasLayoutBuilder.RequiredRowCapacities | src/qsg_atlas_renderer.cpp:3871-3899 | each row's count of instances in the pass |
| AtlasLayoutBuilder.UpdateRowCapacities | src/qsg_atlas_renderer.cpp:3901-3925 | capacities cover the counts, only grow, stay as they are while they suffice, and grow to the least bucket that suffices |
| AtlasLayoutBuilder.PassKeepsRanges | src/qsg_atlas_renderer.cpp:3945-3972 | row ranges stay apart, in the buffer, and exactly the slots of rows |
| AtlasLayoutBuilder.LayoutMakesPlansComplete | src/qsg_atlas_renderer.cpp:7897-7977 | a buffer laid out like this meets the planner's condition for every committed image |
| AtlasLayoutPasses.LayoutBuffer.ReserveRows | src/qsg_atlas_renderer.cpp:3938-3973 | row slots are appended blank, with their ranges |
| AtlasLayoutPasses.LayoutBuffer.AppendRowStableGlyphPass | src/qsg_atlas_renderer.cpp:3927-4013 | a glyph pass appends its row slots and then the instances without slots, in order |
| AtlasLayoutPasses.LayoutBuffer.AppendRowStableRectPass | src/qsg_atlas_renderer.cpp:4052-4167 | a rect pass puts the instances before the first row instance first, then row slots, then the others in order |
| AtlasLayoutPasses.LayoutBuffer.BuildGlyphLayout | src/qsg_atlas_renderer.cpp:4015-4050 | both glyph passes, every row's instances fitting, with ranges right for the planner |
| AtlasLayoutPasses.LayoutBuffer.BuildRectLayout | src/qsg_atlas_renderer.cpp:4169-4210 | all rect passes in order, every row's instances fitting, with ranges right for the planner |
| AtlasLayoutPasses.RectPassSlice | src/qsg_atlas_renderer.cpp:4198-4209 | a pass's part of the rect buffer holds that pass and no other |
| GlyphPacker.Packer.Pack | src/qsg_atlas_renderer.cpp:8105-8141 | a tile is packed apart from all tiles before it, inside the first page that has room, a new one only when none has, exactly when there is room; the other pages stay; otherwise nothing changes, the page count included |
| GlyphPacker.Packer.PackInPage | src/qsg_atlas_renderer.cpp:8150-8189 | a page takes a tile exactly when a shelf or the rest of the page has room, at the end of the first shelf with room, and on a new shelf of the tile's height only when none has |
| GlyphPacker.RoomIsAPlace | src/qsg_atlas_renderer.cpp:8150-8189 | a page has room exactly when there is a place beside or below its shelves where the tile can stand |
| GlyphPacker.ExtendedShelfKeeps | src/qsg_atlas_renderer.cpp:8156-8168 | a tile at the end of a shelf touches no other tile or gutter |
| GlyphPacker.NewShelfKeeps | src/qsg_atlas_renderer.cpp:8170-8188 | neither does one on a new shelf |
| GlyphPacker.PagesFit | src/qsg_atlas_renderer.cpp:8098-8189 | shelves never take more than their pages' area |
| GlyphBudget.PowerOfTwoExtent | src/qsg_atlas_renderer.cpp:476-490 | the least power of two that is large enough, or the maximum when no power of two fits |
| GlyphBudget.RuntimeConfiguration | src/qsg_atlas_renderer.cpp:520-553 | the one suitable extent with the largest page budget that keeps all pages under the byte limit and the device's; none exactly when the device has no room for a page or the extent required exceeds 4096 |
| GlyphBudget.PageExtentIsUnique | src/qsg_atlas_renderer.cpp:476-490 | only one extent is the least power of two that is large enough, or else the maximum |
| GlyphBudget.PageFits | src/qsg_atlas_renderer.cpp:541-546 | a page of that extent fits the byte limit exactly when the extent required is at most 4096 |
| GlyphBudget.BytesWithinLimit | src/qsg_atlas_renderer.cpp:541-552 | tile bytes are at most page bytes, at most budget bytes, at most the byte limit |
| GlyphCache.CopyTileToSlot | src/qsg_atlas_renderer.cpp:8347-8363 | the page shows the tile at the slot and is unchanged elsewhere |
| GlyphCache.InsertAgrees | src/qsg_atlas_renderer.cpp:8287-8317 | a new tile leaves every other key's tile in place |
| GlyphCache.Storage.Insert | src/qsg_atlas_renderer.cpp:8298-8317 | a new key is stored when packable and then shows its tile at its offset; otherwise nothing changes |
| GlyphPrepare.Cache.InsertOrGet | src/qsg_atlas_renderer.cpp:8287-8317 | the cache stands for a map from keys to the first tile and its offset; a new one is returned and stored as given, and a shared storage is copied before it is written |
| GlyphPrepare.Cache.DetachStorageForWrite | src/qsg_atlas_renderer.cpp:8278-8285 | a cache that shares gets a copy of its own with the same contents |
| GlyphPrepare.Cache.Find | src/qsg_atlas_renderer.cpp:8265-8276 | a key is found exactly when it was inserted, with the offset inserted, and its slot shows its tile |
| GlyphPrepare.Cache.Configure | src/qsg_atlas_renderer.cpp:8202-8228 | another page layout starts empty, the same one changes nothing |
| GlyphPrepare.Cache.SetEpoch | src/qsg_atlas_renderer.cpp:8230-8245 | another epoch starts empty, the same one changes nothing |
| GlyphPrepare.Cache.Stats | src/qsg_atlas_renderer.cpp:8319-8330 | used bytes are at most allocated bytes, at most budget bytes, which is the page budget's |
| GlyphPrepare.Prepare.Begin | src/qsg_atlas_renderer.cpp:4382-4397 | a prepare starts from the committed tiles, or empty, and leaves the committed cache alone |
| GlyphPrepare.Prepare.Insert | src/qsg_atlas_renderer.cpp:8287-8317 | an insertion during a prepare gives the key's first tile and offset, and never changes the committed cache |
| GlyphPrepare.Prepare.Commit | src/qsg_atlas_renderer.cpp:2732-2742 | the prepared cache becomes the committed one |
| GlyphPrepare.Prepare.Discard | src/qsg_atlas_renderer.cpp:2743-2749 | a failed prepare leaves the committed cache as it was |
| OutputBlocks.DerivedLimitsFit | src/native_backend_io_core.cpp:120-308 | chunk and FIFO bounds, and exactly when FIFO and read fit between the queue limits |
| OutputBlocks.LimitsUseAllRoom | src/native_backend_io_core.cpp:120-308 | a read is as long as 16 KiB and one byte of FIFO allow, the FIFO has the rest, a chunk what the high water takes, and a ceiling cuts FIFO and chunk |
| OutputBlocks.ParksWhenFull | src/native_backend_io_core.h:458-489 | the reader parks with its bytes exactly when they would have to be queued and do not fit, or could not be replayed |
| OutputBlocks.ReadsWhatFits | src/native_backend_io_core.cpp:120-308 | the reader goes on exactly when no delivery is in progress and one byte could be handed over, and reads as many as could be |
| OutputBlocks.DrainsWhenItCanTake | src/native_backend_io_core.h:576-609 | with bytes queued the exit drain goes on exactly when it can take them |
| OutputBlocks.Backend.TakeForDelivery | src/native_backend_io_core.cpp:322-346 | a chunk is the front of the FIFO, at most a chunk's length, taken by one delivery at a time |
| OutputBlocks.Backend.SetOutputPaused | src/posix_pty_backend.cpp:843-866 | afterwards output is paused exactly when that was asked for and nothing stops; a delivery of the FIFO's front is started exactly when output is not paused, none was in progress and bytes were queued |
| OutputBlocks.Backend.Terminate | src/posix_pty_backend.cpp:946-970 | only a running backend that is not stopping accepts, is unpaused, and a delivery of the FIFO's front is started exactly when none was in progress and bytes were queued |
| OutputBlocks.Backend.FinishDeliveryTurn | src/native_backend_io_core.h:518-541 | a turn takes the FIFO's front exactly when output is not paused, or stopping, and bytes are queued; else the delivery ends |
| OutputBlocks.Backend.DeliverOrBuffer | src/native_backend_io_core.h:458-489 | the reader's bytes are delivered exactly when nothing is pending, dropped when stopping, and else go behind what is queued, within the bound |
| OutputBlocks.Backend.BeginShutdown | src/posix_pty_backend.cpp:1000-1013 | after it, first or not, bytes are dropped, the reader never parks, nothing pauses or terminates again and the drain may go on; a second one is told so and changes nothing |
| OutputBlocks.Backend.Revoke | src/posix_pty_backend.cpp:1069-1076 | after it bytes are dropped, the reader never parks and nothing pauses or terminates again; repeating it changes nothing |
| OutputBlocks.Backend.ClaimExit | src/native_backend_io_core.h:666-681 | the first claim succeeds and stops the backend for good, the queued bytes and callbacks untouched; any other is refused and changes nothing |
| OutputBlocks.BlocksKeep | src/posix_pty_backend.cpp:843-1076 | no block undoes a stop, a revocation, a shutdown or a claimed exit, and a stopped backend queues nothing more |
| OutputBlocks.LimitsTooClose | src/native_backend_io_core.cpp:120-308 | equal queue limits leave no room for the FIFO's one byte and a one-byte read |
| OutputProtocol.StepKeeps | src/native_backend_io_core.h:444-611 | every step of every thread keeps all invariants of the protocol |
| OutputProtocol.TakeKeeps | src/native_backend_io_core.cpp:322-346 | taking a chunk moves bytes and loses none |
| OutputProtocol.HandOverKeeps | src/native_backend_io_core.h:458-489 | handing over keeps order and bound |
| OutputProtocol.NextTurnKeeps | src/native_backend_io_core.h:518-541 | a turn keeps one activation in charge of the FIFO |
| OutputProtocol.DrainedKeeps | src/native_backend_io_core.h:576-609 | the drain before the exit report ends with nothing undelivered |
| OutputProtocol.ExitClaimKeeps | src/native_backend_io_core.h:656-693 | the exit is claimed with nothing left to deliver |
| OutputRuns.NothingIsLost | src/posix_pty_backend.cpp:843-1222 | in every run, while callbacks are set, delivered, in-flight, queued and held bytes are the bytes read, in order; the FIFO never exceeds its bound; what was delivered is always a prefix of what was read |
| OutputRuns.QueuedBytesAreInCharge | src/posix_pty_backend.cpp:843-866 | in every run, while callbacks are set, queued bytes are paused or an activation is there that replays them |
| OutputRuns.BytesAdvance | src/posix_pty_backend.cpp:843-1222 | in every run, while callbacks are set and the reader is there, unless output is paused and the FIFO full, the reader or an activation can take a step |
| OutputRuns.ExitDrainAdvances | src/native_backend_io_core.h:576-609 | in every run, the exit drain is never stuck once no activation is left |
| OutputRuns.OneCallbackAtATime | src/native_backend_io_core.h:444-548 | no two threads are inside the output callback, even after revocation |
| OutputRuns.ExitIsLast | src/posix_pty_backend.cpp:1755-1803 | the exit callback begins at most once, and only with every byte read delivered |
| OutputRuns.ExitFindsAllDelivered | src/native_backend_io_core.h:560-611 | an exit claimed while callbacks stay set finds nothing undelivered |
| OutputRuns.OnlyObservedExitsAreReported | src/posix_pty_backend.cpp:1740-1803 | in every run an exit that could not be observed is never reported, and one that was is claimed once all is drained |
| OutputRuns.OwnerNeverWaits | src/posix_pty_backend.cpp:843-1076 | in every state a shutdown, a revocation, and some call that pauses or resumes can begin |
| OutputRuns.PauseHolds | src/posix_pty_backend.cpp:843-866 | while paused no chunk is taken and no delivery set out on |
| OutputRuns.AtMostOneMoreCallback | src/posix_pty_backend.cpp:1000-1076 | in any run, once stopped with the callbacks cleared, nothing more is delivered than the bytes of one callback that had begun, or copied the callbacks, by then |
| OutputRuns.CallbackSizes | src/native_backend_io_core.cpp:322-346 | a callback gets at least one byte and at most a chunk or a read |
| CallbackGate.StepKeeps | src/native_backend_io_core.cpp:16-59 | the active count is the sum of all threads' nesting depths and pending count-downs, in every interleaving |
| CallbackGate.CountNeverUnderflows | src/native_backend_io_core.cpp:32-41 | the count is never taken below zero |
| CallbackGate.OnlyOwnCallsAreLeft | src/native_backend_io_core.cpp:53-59 | when a revocation returns only the revoking thread's own calls still run |
| CallbackGate.NothingIsAdmittedAfter | src/native_backend_io_core.cpp:53-59 | in any run after it no call is admitted again |
| CallbackGate.ReturnsUnlessBlocked | src/native_backend_io_core.cpp:53-59 | a revocation returns in some continuation exactly when its thread is in no set of threads that each revoke a gate another of them has a call in |
| CallbackGate.BlockedForEver | src/native_backend_io_core.cpp:53-59 | a thread of such a set returns in no run |
| CallbackGate.UnblockedCanReturn | src/native_backend_io_core.cpp:53-59 | any other revoking thread has a run in which it returns |
| CallbackGate.BlockedIsReachable | src/native_backend_io_core.cpp:16-59 | a run from the start in which two threads, each in one gate, revoke each other's |
| CallbackGate.RevokersBlockEachOther | src/native_backend_io_core.cpp:53-59 | two threads that revoke one gate from inside its own callbacks are such a set |
| CallbackGate.NativeGate.CurrentDepth | src/native_backend_io_core.cpp:43-51 | walking the invocations counts the thread's depth in the gate |
| FrameBuilder.BuildFrame | src/qsg_terminal_renderer.cpp:1868-2258 | the emitted runs and rectangles, taken apart into cells, paint exactly what emission cell by cell would, are the fewest (a cell or block starts its own only when it may not join), and are that emission exactly when no run and no rectangle joined different colours, as is so when colours of the cells that paint alike are equal |
| FrameBuilder.Builder.ProcessCell | src/qsg_terminal_renderer.cpp:1892-2258 | every cell keeps that true of the frame so far |
| FrameBuilder.Builder.EmitText | src/qsg_terminal_renderer.cpp:2185-2255 | a cell joins the open run exactly when it may and starts one of its own otherwise |
| FrameBuilder.Builder.AppendFullBlock | src/qsg_terminal_renderer.cpp:2127-2166 | a full block joins the open rectangle exactly when it may and starts one otherwise; an invisible one emits nothing |
| FrameBuilder.Builder.AppendPrimitive | src/qsg_terminal_renderer.cpp:2167-2176 | other graphics are never joined |
| TextRuns.JoinKeepsRun | src/qsg_terminal_renderer.cpp:2207-2230 | a joined cell is recovered from the run with its text, column, colours, style and line |
| TextRuns.JoinKeepsRect | src/qsg_terminal_renderer.cpp:2138-2157 | a joined block is recovered from the rectangle |
| TextRuns.RunsPaintTheCells | src/qsg_terminal_renderer.cpp:2125-2253 | runs that stand for their cells paint them in order |
| TextRuns.RunShowsItsCells | src/qsg_terminal_renderer.cpp:2207-2253 | a run has the line, style, decorations and painted colours of each of its cells, and each one's text at its column |
| TextRuns.EmittedCells | src/qsg_terminal_renderer.cpp:2112-2190 | which cells emit text and which rectangles, decided on their fields |
| TextRuns.PlainCells | src/qsg_terminal_renderer.cpp:2192-2204 | just plain cells of one printable ASCII character may share a run |
| TextRuns.ProtectedCellsStayAlone | src/qsg_terminal_renderer.cpp:2194-2204 | cells under cursor or preedit are runs of their own |
| TextRuns.ColoursAreExact | src/qsg_terminal_renderer.cpp:2205-2219 | a run gives back its cells' very colours exactly when all are those of the first |
| TextRuns.RectColoursAreExact | src/qsg_terminal_renderer.cpp:2142-2149 | a rectangle gives back its blocks exactly when all have the colour of the first |
| TextRuns.AllPiecesExact | src/qsg_terminal_renderer.cpp:2125-2253 | all runs are emission cell by cell exactly when each one's cells share their colours |
| TextRuns.AllCutsExact | src/qsg_terminal_renderer.cpp:2127-2166 | so are all rectangles, exactly when each one's blocks share their colour |
| TextRuns.PaintDecidesFrame | src/qsg_terminal_renderer.cpp:2125-2253 | when cells' colours that paint alike are equal, the frame loses nothing |
| TextRuns.ColourDetailIsLost | src/qsg_terminal_renderer.cpp:2205-2219 | a cell that joins with another colour of the same paint loses it |
| CellMasks.BuildCellStateMask | src/qsg_terminal_renderer.cpp:119-175 | each cell has the largest state of its spans, wide glyphs that of their columns |
| CellMasks.WideGlyphs | src/qsg_terminal_renderer.cpp:146-171 | a glyph is widened exactly when it begins at least two cells that all lie in the grid |
| CellMasks.WideGlyphIsUniform | src/qsg_terminal_renderer.cpp:146-171 | a wide glyph not overlapped later has one state, the largest there was |
| CellMasks.AppendCellStateRects | src/qsg_terminal_renderer.cpp:177-225 | the rectangles are the longest runs of one state, in order and apart |
| CellMasks.RectsGiveBackMask | src/qsg_terminal_renderer.cpp:177-225 | each cell with a state is in exactly one rectangle, of that state, and no other cell is in any |
| ForegroundCustody.Custody.Refresh | src/linux_terminal_foreground_custody.h:78-136 | a refresh, after a complete one as well, is complete exactly when it met no error, reports the first it met, and sends nothing but probes; then it read every retained member, the whole directory, and has one finding for each process listed, in order |
| ForegroundCustody.Custody.RetireFinished | src/linux_terminal_foreground_custody.h:88-103 | every retained member is read once, exactly those seen exited or gone are let go, and the first error of the others is reported |
| ForegroundCustody.Custody.ScanEntry | src/linux_terminal_foreground_custody.h:106-133 | one finding is added, of the entry's process; it is a member's exactly when the process was read as running, of the group and of the session, and each other outcome exactly when the answers say so |
| ForegroundCustody.Custody.Admit | src/linux_terminal_foreground_custody.h:260-303 | a descriptor ends up in one slot or closed; the process is kept or counted as unretained exactly when it was read as running, of the group and of the session, and identified |
| ForegroundCustody.Custody.Retain | src/linux_terminal_foreground_custody.h:281-303 | a member gets a slot unless one holds its identity; with none free it is counted as unretained |
| ForegroundCustody.Custody.SignalMembers | src/linux_terminal_foreground_custody.h:140-166 | each retained member that did not have the signal is sent it exactly once, the others not at all; only processes read as members of the group and session are sent it; it succeeds exactly when no retained member is left without it, and asks for another scan exactly when it fails or a member is gone |
| ForegroundCustody.Custody.Empty | src/linux_terminal_foreground_custody.h:168-179 | true exactly when the last scan is complete, left nobody unretained and nothing is held; then every process in the directory it listed was found vanished, exited or foreign |
| ForegroundCustody.Custody.Destroy | src/linux_terminal_foreground_custody.h:51-59 | every descriptor is closed |
| ForegroundCustody.RetireKeeps | src/linux_terminal_foreground_custody.h:197-203 | retiring a slot closes its descriptor and keeps the table right |
| ForegroundCustody.FillKeeps | src/linux_terminal_foreground_custody.h:281-303 | held slots stay distinct in descriptor and identity |

## Left out

- Sixel: allocation failure, and with it the fallback after a failed hinted allocation; the cap is fixed for one decoder and below 2^31 - 1 pixels.
- Sixel: colour conversion rounds exact fractions where the source uses floating point for HLS; a packed colour is never 0.
- Sixel: the byte order of packed pixels on big-endian machines, the parser's search for the string terminator, and wrap-around of the 64-bit work ledgers.
- Capture: reparse points, lock files, unreadable files, renamed paths and error texts; a disk step succeeds or fails.
- Capture: a file other than the capture's own that appears in the directory while a writer runs.
- Atlas: everything of the graphics interface; an upload is a copy of byte ranges. Range arithmetic is on unbounded integers, so overflow of a supplied `first_instance + instance_count` is not modelled.
- AtlasPlanner.Planner.MakePlan: the diagnostic counters of the plan other than whether it is a full upload.
- AtlasLayoutPasses.LayoutBuffer.BuildRectLayout: takes any number of passes where the source has six; the instance vector and the row vector, which grow in step, are one sequence of pairs.
- GlyphBudget.RuntimeConfiguration: the extent a font needs is a parameter, because it comes from floating-point metrics.
- GlyphPrepare.Cache.Stats: the counters of lookups, hits, inserts and invalidations.
- Paused output: condition variables are waits until a predicate holds; that a parked thread is woken, and every deadline, is not modelled. The replay loops are steps of the state machine, because a callback can extend them without bound.
- Paused output: the writer thread, errors reported through callbacks, and the Windows backend's stop predicate.
- Callback gate: fairness; that some continuation lets a revocation return is decided exactly, that the scheduler takes it is not modelled.
- Frame: geometry in floating point, decorations (emitted cell by cell in both forms), backgrounds, arcs, images and statistics.
- FrameBuilder.Builder.AppendPrimitive: what shapes a graphic consists of is a parameter of the cell.
- CellMasks.BuildCellStateMask: spans are required to lie in the grid, as the snapshot validation before it ensures.
- ForegroundCustody.Custody.Refresh: parsing of directory names and of the stat line; an entry comes with the number its name is, and a state or an error. That the kernel's answers are true is an assumption of the source as well.
- Windows and Darwin variants, sessions, the screen model and the parser.
