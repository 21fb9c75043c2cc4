# Verified models of the multimedia libraries

This project models, in Dafny, the parts of the Exynos multimedia libraries whose behaviour
spans many functions, and proves what they promise.

* **JPEG and Exif streams (libhwjpeg).** `Bytes`, `Tiff`, `IfdWriters`, `Exif`, `ExifWriter`, `AppMarkers`,
  `App1Patch`, `ExifSegment`, `ExifReader`, `ExifUpdate`, `JpegParser`, `CameraEncoder`, `EncodedStream`, `EncodedExample`, `DebugData`.
  The writer works on an array, as the original does; what it stores is an *image*: a sequence of cells, each either
  a byte or a position left alone. `Stamp` is the buffer after an image has been written, `Matches` says that a buffer
  holds an image. The reader of `Tiff` and `ExifSegment` is an independent one, after TIFF 6.0 section 2 and Exif 2.2
  section 4.6.2, that follows offsets and knows nothing of the writer's layout; `ExifReader` looks attributes up by their tags and
  decodes them, and knows nothing of the writer's fields either.
* **Software scaler (libscaler).** `SwScaler`, with `Arithmetic`: the loops with their 16.16 accumulators in explicit
  32-bit arithmetic, against a closed form.
* **Queues of the V4L2 devices (libscaler, libhwjpeg, libgscaler).** `V4l2` is the device: a pure transition function
  over two buffer queues and an arbitrary choice of which requests fail. `ScalerV4l2` and `HwJpegV4l2` record every
  request with the flags and the driver's state when it was made; `GscRing` runs over a driver that is first in, first out.
* **G2D command builder (libacryl).** `G2dFilters`, `G2dTask`, `Transform`.
* **Command engine (hwc3).** `Composer`, over a log of all calls to the HAL and all refresh requests.

## What callers have to guarantee

* The host is little-endian, and `char` is unsigned, as on arm64.
* `AppMarkers.Acceptable`: the Exif segment without thumbnail fits 65535 bytes, with a thumbnail 65335; both sides of
  the thumbnail are at least 16; the extra segments are valid. The original only logs and goes on with a size of 0.
* `WriteLong` is used with count 1 only: for more it would store one byte in all.
* The `ALOG_ASSERT(m_nTags == 0)` lines are meant the other way round; the methods require that tags are left.
* `ProcessExif` reserves thumbnail space in buffers of at least ten segments without checking that the extra segments
  still fit; `HeaderSize` is what has to fit, exactly, if its checks pass.
* `UpdateDebugData` trusts the lengths of the segments that it updates, but for the last one (`SegmentsFit`). Its loop
  reads the next marker byte before it tests the remaining length; the model tests first, which makes no difference to the result.
* `UpdateExif` does not look at the end of the buffer; the directories have to fit it.
* The software scaler gets a destination that has pixels (`ScalerV4l2.Scaler.DividesByZero` is the opposite), and rectangles
  that lie in their planes (`SwScaler.Readable`, `SwScaler.Writable`).
* The colour equation of a new scaler is not initialised before it is first chosen; what it holds is a parameter.
* Matrices are written for targets and layers of standards other than BT470M and Adobe RGB only: `InTables`.

## What turned out not to hold as such

* An update of the Exif data equals writing it anew only without a thumbnail or with an unchanged 1st directory
  (`ExifUpdate.UpdateIsWrite`, `ExifUpdate.ChangedSchemeIsNotStored`).
* `UpdateDebugData` takes an Exif APP1 segment for an extra one, as the smallest id is 1
  (`DebugData.UpdateIsWriteIffNoExif`, `DebugData.ExifIsMistaken`, `DebugData.MistakenExample`); it also does nothing, and reports success, on a
  stream that ends with the segments.
* YUYV scaling stores just its rectangle only for an even left edge (`SwScaler.StoresRectangleIffLeftEven`, `SwScaler.OddLeftExample`).
* The compressor is not always set to the controls chosen: those that a failing request carried, and the HWFC switch,
  are not sent again (`HwJpegV4l2.Compressor.Compress`, `HwJpegV4l2.LosesQuality`).
* The scaler does not always have the settings chosen: a filter of 0 does not switch it off (`ScalerV4l2.LeavesFilter`), and a
  colour equation or frame rate that the driver refuses once is never sent again although conversions succeed
  (`ScalerV4l2.LosesEquation`). `ScalerV4l2.Scaler.Run` has the exact condition for each of the controls.
* The software scaler divides by zero for a destination without pixels, which nothing checks (`ScalerV4l2.Scaler.DividesByZeroIff`,
  `ScalerV4l2.EmptyDestination`).
* A brightness change does not always take effect with its list of commands. The display takes it up with a committed
  frame (hwc3/impl/HalImpl.cpp:926-931, libhwc2.1/libdisplayinterface/ExynosDisplayDrmInterface.cpp:2160), not with a
  validation or with a present that is refused (libhwc2.1/libdevice/ExynosDisplay.cpp:4013-4017), but these too keep
  it from being flushed (`Composer.StaysIff`, `Composer.FaultlessStrands`, `Composer.LeavesBrightness`).
* The segments do not always fit a buffer that passed the check (`CameraEncoder.Encoder.RoomIff`, `CameraEncoder.Encoder.CheckedButTooSmall`).
* The debug data update does not always stay inside the stream (`DebugData.InsideIffStreamFits`, `DebugData.LeftWraps`), nor the Exif
  update inside its segment (`ExifUpdate.BehindIffLonger`, `ExifUpdate.OverwritesFrame`).
* Not every standard that the G2D accepts has a matrix (`G2dTask.MatrixIffListed`, `G2dTask.BehindTheMatrices`,
  `G2dTask.CscMatrixWriter.Configure`).
* A failing configuration of a G-Scaler ring with a buffer outstanding loses track of it (`GscRing.Ring.Configure`, `GscRing.LosesTrack`).

## Model

| member | source | states |
|---|---|---|
| Tiff.ExtentsTile | libhwjpeg/IFDWriter.h:110-121 | Head, values and sub-directories of a directory fill its region without gaps, so no two of them overlap |
| Tiff.TileDisjoint | libhwjpeg/IFDWriter.h:110-121 | Extents that fill a region are pairwise disjoint and inside it |
| Tiff.ReadBack | libhwjpeg/IFDWriter.h:75-296 | A reader that follows the offsets of a stored directory gets back every tag, type, count and value, through all nested directories |
| Tiff.ReadBackEntry | libhwjpeg/IFDWriter.h:127-278 | Each entry, with its value inline, out of line or in a directory of its own, is read back as written |
| IfdWriters.IfdWriter.constructor | libhwjpeg/IFDWriter.h:110-121 | The count field is stored, and the value region begins behind the entries and the next-directory pointer |
| IfdWriters.IfdWriter.WriteTagTypeCount | libhwjpeg/IFDWriter.h:91-107 | Tag, type and count are stored in front of the value field, and one tag fewer is left |
| IfdWriters.IfdWriter.WriteByte | libhwjpeg/IFDWriter.h:127-141 | Up to four bytes go into the entry, more go to the value region; the directory holds one field more and nothing else changes |
| IfdWriters.IfdWriter.WriteShort | libhwjpeg/IFDWriter.h:143-163 | The same for 16-bit numbers, up to two of them inline |
| IfdWriters.IfdWriter.WriteLong | libhwjpeg/IFDWriter.h:165-180 | The same for one 32-bit number |
| IfdWriters.IfdWriter.WriteASCII | libhwjpeg/IFDWriter.h:182-197 | The same for characters, the last one replaced by a terminator |
| IfdWriters.IfdWriter.WriteCString | libhwjpeg/IFDWriter.h:199-218 | The same for a C string cut or filled with zeros to a fixed length |
| IfdWriters.IfdWriter.WriteRational | libhwjpeg/IFDWriter.h:220-239 | Rationals always go to the value region |
| IfdWriters.IfdWriter.WriteSRational | libhwjpeg/IFDWriter.h:241-249 | So do signed rationals, byte for byte |
| IfdWriters.IfdWriter.WriteUndef | libhwjpeg/IFDWriter.h:251-263 | Bytes of unspecified type, inline up to four |
| IfdWriters.IfdWriter.BeginSubIFD | libhwjpeg/IFDWriter.h:265-278 | The entry points to the value region, where the sub-directory is to be written |
| IfdWriters.IfdWriter.EndSubIFD | libhwjpeg/IFDWriter.h:280-280 | A finished sub-directory becomes one field of its parent, whose value region goes on behind it |
| IfdWriters.IfdWriter.Finish | libhwjpeg/IFDWriter.h:283-292 | With no tag left, the stored bytes are exactly the image of the whole directory, with the next pointer given |
| AppMarkers.AppMarkerWriter.PrepareAppWriter | libhwjpeg/AppMarkerWriter.cpp:84-275 | The announced APP1 size, the four field counts and the thumbnail's place and maximal size are those of the segment that will be written |
| AppMarkers.AppMarkerWriter.MeasureApp1 | libhwjpeg/AppMarkerWriter.cpp:91-238 | The lengths added up are those of the directories, for all strings, blobs and options |
| AppMarkers.AppMarkerWriter.MeasureZeroth | libhwjpeg/AppMarkerWriter.cpp:99-130 | The part of the 0th directory in the sum |
| AppMarkers.AppMarkerWriter.MeasureExif | libhwjpeg/AppMarkerWriter.cpp:152-186 | The part of the Exif and interoperability directories in the sum |
| AppMarkers.AppMarkerWriter.MeasureGps | libhwjpeg/AppMarkerWriter.cpp:188-214 | The part of the GPS directory in the sum |
| AppMarkers.FieldCounts | libhwjpeg/AppMarkerWriter.cpp:99-214 | The fields counted in advance are as many as the directories have |
| AppMarkers.AppMarkerWriter.CheckExtra | libhwjpeg/AppMarkerWriter.cpp:240-258 | The extra segments' ids and sizes are checked one by one |
| AppMarkers.AcceptableIff | libhwjpeg/AppMarkerWriter.cpp:234-258 | The limits in numbers: 65335 bytes with a thumbnail of at least 16 by 16, 65535 without, ids from 1 to 9 and payloads of up to 65533 bytes |
| AppMarkers.App1LengthIs | libhwjpeg/AppMarkerWriter.cpp:91-238 | The length summed up in advance is the size of the image written later |
| ExifWriter.WriteZeroth | libhwjpeg/AppMarkerWriter.cpp:341-452 | The 0th directory reaches its end with no tag left over and no tag missing |
| ExifWriter.WriteExifIfd | libhwjpeg/AppMarkerWriter.cpp:355-415 | The same for the Exif directory, with the interoperability directory nested in it |
| ExifWriter.WriteInteropIfd | libhwjpeg/AppMarkerWriter.cpp:405-410 | The same for the interoperability directory |
| ExifWriter.WriteGpsIfd | libhwjpeg/AppMarkerWriter.cpp:424-447 | The same for the GPS directory, with or without processing method |
| ExifWriter.WriteFirstIfd | libhwjpeg/AppMarkerWriter.cpp:460-472 | The 1st directory, which leads to the thumbnail; where its length is to go is remembered |
| AppMarkers.AppMarkerWriter.WriteAPP1 | libhwjpeg/AppMarkerWriter.cpp:319-482 | The buffer changes to the image of the segment and nowhere else, and the returned end is that of the announced length |
| AppMarkers.AppMarkerWriter.Update | libhwjpeg/AppMarkerWriter.h:130-130 | An update stores marker, identifiers and all but the last directory, but not the length, the next pointer or the thumbnail |
| AppMarkers.AppMarkerWriter.WriteAPPX | libhwjpeg/AppMarkerWriter.cpp:298-317 | The segments follow one another with exact lengths; reserved payloads are left as they are |
| AppMarkers.AppMarkerWriter.WriteExtra | libhwjpeg/AppMarkerWriter.cpp:301-314 | One of them: marker, length, and payload unless it is only reserved |
| AppMarkers.AppMarkerWriter.WriteAPP11 | libhwjpeg/AppMarkerWriter.cpp:278-296 | The filling segment ends where the main stream may begin |
| AppMarkers.AppMarkerWriter.Padding | libhwjpeg/AppMarkerWriter.cpp:283-287 | Fewer bytes than the alignment are added, and what follows is aligned |
| AppMarkers.AppMarkerWriter.Write | libhwjpeg/AppMarkerWriter.h:121-128 | All segments are written one behind the other, and the ends of APP1 and of everything are recorded |
| AppMarkers.AppMarkerWriter.CalculateAPPSize | libhwjpeg/AppMarkerWriter.h:103-117 | The sum of all segments, with the thumbnail or the space reserved for it |
| AppMarkers.AppMarkerWriter.Finalize | libhwjpeg/AppMarkerWriter.cpp:484-490 | The thumbnail's length is stored where the 1st directory expects it, once |
| AppMarkers.AppMarkerWriter.UpdateApp1Size | libhwjpeg/AppMarkerWriter.cpp:491-496 | The segment's length field gets the new sum, big-endian |
| App1Patch.LengthPatched | libhwjpeg/AppMarkerWriter.cpp:491-496 | Storing another length turns the segment into the one that would have been written with it |
| App1Patch.ThumbLengthPatched | libhwjpeg/AppMarkerWriter.cpp:484-490 | So does storing the thumbnail's length |
| ExifSegment.ReadExifBack | libhwjpeg/AppMarkerWriter.cpp:319-482 | An Exif reader gets from the segment exactly the attributes given, in every directory |
| ExifReader.AttributesBack | libhwjpeg/AppMarkerWriter.cpp:319-482 | A reader that looks fields up by the tags of Exif 2.2 and decodes their bytes finds every attribute that was written, whatever it is, texts cut to their fields, and place and length of the thumbnail; header and identifier are in front |
| ExifReader.TypesOfTiff | libhwjpeg/IFDWriter.h:75-107 | The codes of the field types and the sizes of their components |
| ExifReader.MainIsSaid | libhwjpeg/AppMarkerWriter.cpp:319-482 | The same for IFD0 and the directories nested in it, no tag of which occurs twice |
| ExifReader.RationalAt | libhwjpeg/IFDWriter.h:220-239 | The i-th rational of a field, numerator first, is the i-th one written |
| ExifReader.TextFound | libhwjpeg/IFDWriter.h:199-218 | The characters of a text in front of its first zero, cut to one less than the field has room for |
| ExifReader.FirstIsSaid | libhwjpeg/AppMarkerWriter.cpp:460-472 | IFD1 says the thumbnail's sides, scheme, orientation, place and length |
| ExifSegment.ExtentsOfSegment | libhwjpeg/AppMarkerWriter.cpp:319-482 | All directories and values of the segment, and the thumbnail's place behind them, are pairwise disjoint and inside the segment |
| ExifUpdate.UpdateAfterWrite | libhwjpeg/AppMarkerWriter.cpp:319-482 | Writing and then updating with attributes of the same shape gives the new attributes in all directories but the 1st, which keeps the old ones, over any buffer |
| ExifUpdate.UpdateIsWrite | libhwjpeg/AppMarkerWriter.cpp:454-477 | That equals writing the new attributes at once if and only if there is no thumbnail or the 1st directory's attributes are unchanged |
| ExifUpdate.UpdateIsRead | libhwjpeg/AppMarkerWriter.cpp:319-482 | A reader of an updated segment finds all new attributes in IFD0, but the old length, and in IFD1 what it said before |
| ExifUpdate.UpdateExif | libhwjpeg/AppMarkerWriter.cpp:619-651 | A stream that does not begin with SOI and APP1, or is too short, is refused unchanged; otherwise the buffer changes as by an update and nowhere else, and unless the update outgrows its segment the parser's verdict is the same |
| ExifUpdate.BehindIffLonger | libhwjpeg/AppMarkerWriter.cpp:644-648 | Bytes are stored behind the segment, or behind the buffer, if and only if the update is longer than the stored length, or the buffer, which is not checked |
| ExifUpdate.OverwritesFrame | libhwjpeg/AppMarkerWriter.cpp:617-664 | Whatever the attributes, updating a stream with an empty APP1 segment overwrites the marker of the frame behind it, and a stream that the parser accepted is refused |
| ExifUpdate.UpdateInside | libhwjpeg/AppMarkerWriter.cpp:619-651 | An update that stays inside its segment leaves everything behind it, and the frame that the parser finds |
| ExifUpdate.ChangedSchemeIsNotStored | libhwjpeg/AppMarkerWriter.cpp:454-477 | With a thumbnail, a changed compression scheme is one that the update does not store |
| JpegParser.JpegStreamParser.Parse | libhwjpeg/libhwjpeg-exynos.cpp:86-166 | For every byte string: terminates within it, and finds what scanning its segments one by one finds |
| JpegParser.JpegStreamParser.ParseFrame | libhwjpeg/libhwjpeg-exynos.cpp:168-217 | The frame header's checks, in order, with what each rejection leaves behind |
| JpegParser.JpegStreamParser.GetLength | libhwjpeg/libhwjpeg-exynos.cpp:81-84 | A big-endian number |
| JpegParser.AcceptedIffFrameReached | libhwjpeg/libhwjpeg-exynos.cpp:86-217 | A stream is accepted exactly if a chain of segments, each with a marker from a list of codes that are stepped over, leads from SOI to a supported baseline frame header |
| JpegParser.ReachedIsAccepted | libhwjpeg/libhwjpeg-exynos.cpp:168-217 | That frame's sides and factors are the ones remembered |
| JpegParser.ScanMoved | libhwjpeg/libhwjpeg-exynos.cpp:86-166 | What the parser finds does not depend on what lies before the segment it looks at |
| CameraEncoder.RemoveTrailingDummies | libhwjpeg/ExynosJpegEncoderForCamera.cpp:192-210 | The stream ends with its last EOI; 0 means that it has none |
| CameraEncoder.Encoder.CompressThumbnailOnly | libhwjpeg/ExynosJpegEncoderForCamera.cpp:760-788 | Terminates, and returns the stream made at the first of the falling quality factors that is low enough for the limit, or nothing, exactly if an attempt fails before that, makes a stream without end, or the last one is still too large |
| CameraEncoder.Encoder.FitOrHopeless | libhwjpeg/ExynosJpegEncoderForCamera.cpp:760-788 | If some attempt is the first that fits, the attempts do not come to nothing, and no other stream is the first that fits |
| CameraEncoder.Encoder.MadeIsUnique | libhwjpeg/ExynosJpegEncoderForCamera.cpp:760-788 | What the attempts come to is determined by the compressor, quality and limit |
| CameraEncoder.QualitySteps | libhwjpeg/ExynosJpegEncoderForCamera.cpp:772-782 | The quality factors tried: the one given, then 50 or ten less, and ten less each time, at most four times and never below 20 |
| CameraEncoder.Encoder.ProcessExif | libhwjpeg/ExynosJpegEncoderForCamera.cpp:219-280 | Succeeds if and only if the sizes agree and the buffer is longer than the segments without thumbnail, the last stream's APP11 and the least main stream; then all segments are in the buffer, and the main stream's place is the exact size of what is in front of it |
| CameraEncoder.Encoder.HeaderIs | libhwjpeg/AppMarkerWriter.h:121-128 | That size is the length of the image that `Write` stores |
| CameraEncoder.Encoder.RoomIff | libhwjpeg/ExynosJpegEncoderForCamera.cpp:253-271 | A buffer that passes the check holds the segments if no space is reserved, and otherwise if and only if it holds a whole APP1 segment and the others |
| CameraEncoder.Encoder.RoomNeeded | libhwjpeg/ExynosJpegEncoderForCamera.cpp:253-271 | The numbers behind both decisions: 591 bytes more than the segments, and space kept for a thumbnail from 655350 bytes on |
| CameraEncoder.Encoder.StoredIff | libhwjpeg/AppMarkerWriter.h:121-128 | Bytes are stored behind a place if and only if the segments, without the padding and the main stream's SOI at their end, reach beyond it |
| CameraEncoder.Encoder.CheckedButTooSmall | libhwjpeg/ExynosJpegEncoderForCamera.cpp:253-271 | Fifteen extra segments of the greatest size pass the check of a buffer of 990000 bytes and do not fit it |
| CameraEncoder.Encoder.MainAligned | libhwjpeg/ExynosJpegEncoderForCamera.cpp:246-273 | The address handed to the hardware is aligned as it demands |
| CameraEncoder.Encoder.AppSizeIsOffset | libhwjpeg/ExynosJpegEncoderForCamera.cpp:478-489 | After writing, `CalculateAPPSize(0)` is the main stream's offset, and the space test tells whether space was reserved |
| CameraEncoder.Encoder.FinalSize | libhwjpeg/ExynosJpegEncoderForCamera.cpp:524-524 | The size added at the end is that of all segments with the embedded thumbnail |
| CameraEncoder.Encoder.ClearMainSoi | libhwjpeg/ExynosJpegEncoderForCamera.cpp:454-456 | Clearing the main stream's SOI changes only dummy bytes of the last segment |
| CameraEncoder.Encoder.WriteSegments | libhwjpeg/ExynosJpegEncoderForCamera.cpp:258-271 | Where `Write` has put things is known, and the buffer holds them |
| CameraEncoder.Encoder.FirstThumbnail | libhwjpeg/ExynosJpegEncoderForCamera.cpp:458-476 | Worker thread, separate pass or back-to-back: which stream comes first, nothing being there exactly if none was generated or the attempts come to nothing |
| CameraEncoder.Encoder.FitThumbnail | libhwjpeg/ExynosJpegEncoderForCamera.cpp:478-487 | A thumbnail that fits is kept; a larger one is replaced by the first that fits segment and buffer from quality 50 down, and the call fails if and only if there is none |
| CameraEncoder.Encoder.FitsRoom | libhwjpeg/ExynosJpegEncoderForCamera.cpp:478-481 | A thumbnail fits exactly if APP1 can hold it and everything together ends in the buffer |
| CameraEncoder.Encoder.MakeRoom | libhwjpeg/ExynosJpegEncoderForCamera.cpp:497-507 | Everything behind APP1 is moved by exactly the thumbnail's length, and APP1 announces it without wrapping |
| CameraEncoder.Encoder.PlaceThumbnail | libhwjpeg/ExynosJpegEncoderForCamera.cpp:509-512 | The thumbnail is behind the 1st directory, which records its length; nothing else changes |
| CameraEncoder.Encoder.ClearReserved | libhwjpeg/ExynosJpegEncoderForCamera.cpp:514-519 | The rest of the reserved space is zero |
| CameraEncoder.Encoder.EmbedSpliced | libhwjpeg/ExynosJpegEncoderForCamera.cpp:489-512 | Without reserved space the thumbnail goes between the 1st directory and what followed it |
| CameraEncoder.Encoder.EmbedReserved | libhwjpeg/ExynosJpegEncoderForCamera.cpp:509-519 | With reserved space nothing moves, and what the thumbnail does not fill is zero |
| CameraEncoder.Encoder.Complete | libhwjpeg/ExynosJpegEncoderForCamera.cpp:524-538 | SOI is stored in front, and the size is that of everything up to the main image's end |
| CameraEncoder.Encoder.EmbedThumbnail | libhwjpeg/ExynosJpegEncoderForCamera.cpp:478-519 | In both modes APP1 holds the thumbnail, the first one if it fits and else the one made instead, and the other segments and the main image follow unharmed; it fails exactly if there is none |
| CameraEncoder.Encoder.FinishCompression | libhwjpeg/ExynosJpegEncoderForCamera.cpp:444-539 | The returned size is exact: SOI, APP1 with the thumbnail, the other segments and the trimmed main image lie in the first so many bytes of the buffer; in every mode the thumbnail that comes first is embedded if it fits, otherwise the first from quality 50 down that does, and only without one, or without the worker thread, the call fails |
| EncodedStream.SameVerdict | libhwjpeg/ExynosJpegEncoderForCamera.cpp:444-539 | The parser finds in the finished stream the frame that it finds in the main stream, in all three thumbnail cases |
| EncodedStream.SameVerdictAsUntrimmed | libhwjpeg/ExynosJpegEncoderForCamera.cpp:192-210 | The finished stream is accepted if and only if the untrimmed main stream is, for a frame header in front of its last EOI, and then the same is remembered |
| EncodedStream.FinalApp1Is | libhwjpeg/ExynosJpegEncoderForCamera.cpp:489-519 | The finished APP1 is the one that would have been written with the thumbnail's length; its length field is exact |
| EncodedStream.ExifInFinishedStream | libhwjpeg/ExynosJpegEncoderForCamera.cpp:444-539 | An Exif reader gets every attribute from the finished stream, and through the 1st directory exactly the thumbnail |
| EncodedStream.StreamIsComplete | libhwjpeg/ExynosJpegEncoderForCamera.cpp:338-442 | The finished stream byte for byte: SOI, APP1 as long as it says, each extra segment with its id, length and payload, APP11 up to the main stream, and that one behind its own SOI, ending with EOI |
| EncodedStream.CompressMain | libhwjpeg/ExynosJpegEncoderForCamera.cpp:425-434 | The compressor overwrites nothing of the segments but the dummies at their end, and fails exactly if the device does |
| EncodedStream.CompressAndFinish | libhwjpeg/ExynosJpegEncoderForCamera.cpp:425-442 | The device's stream is finished, with the thumbnail that `FinishCompression` tells of |
| EncodedStream.Encode | libhwjpeg/ExynosJpegEncoderForCamera.cpp:338-442 | A whole blocking encode: it returns a size if and only if sizes agree, the buffer passes for large enough, the device delivers and there is a thumbnail to embed, which one being determined; then the stream consists of SOI, APP1, the extra segments, APP11 and the main stream only, the parser sees the main image's frame and an Exif reader every attribute, by its tag and from its bytes, and that thumbnail |
| EncodedExample.EncodesPlain | libhwjpeg/ExynosJpegEncoderForCamera.cpp:338-442 | A picture with Exif data and an extra segment, encoded from beginning to end and read back |
| DebugData.GetExtraAppSize | libhwjpeg/AppMarkerWriter.cpp:505-526 | The size of all segments, or 0 if any is invalid |
| DebugData.DebugMarkers | libhwjpeg/AppMarkerWriter.cpp:578-581 | The markers taken for extra segments: those that the writer uses, and APP10 |
| DebugData.UpdateDebugData | libhwjpeg/AppMarkerWriter.cpp:545-615 | Whatever the stream, as far as the segments that are updated end in it: the result and the new contents are those of the segment-wise description, and bytes behind the stream stay |
| DebugData.UpdateSegments | libhwjpeg/AppMarkerWriter.cpp:563-614 | The walk over the segments, which stays inside the stream |
| DebugData.InsideIffStreamFits | libhwjpeg/AppMarkerWriter.cpp:545-615 | The update examines and stores nothing but bytes of the stream if and only if its demand on the segments is met, whatever the stream and the data |
| DebugData.InsideIffFits | libhwjpeg/AppMarkerWriter.cpp:567-612 | The same for the walk from any segment on, with its length left in 64-bit arithmetic |
| DebugData.WalkStep | libhwjpeg/AppMarkerWriter.cpp:567-612 | One step of it: a segment to be updated that extends beyond the stream leads out of it, unless it is the last one |
| DebugData.LeftWraps | libhwjpeg/AppMarkerWriter.cpp:592-611 | A stream of 13 bytes whose APP1 claims 65535: the second payload is looked for behind the stream |
| DebugData.UpdateKeepsVerdict | libhwjpeg/AppMarkerWriter.cpp:545-615 | The frame that the parser finds is the same before and after, whatever the stream and the data |
| DebugData.SegmentsUpdated | libhwjpeg/AppMarkerWriter.cpp:567-612 | On segments as written or reserved, an update with the same ids and sizes gives what writing the new data would have given, and no other byte changes |
| DebugData.WrittenFits | libhwjpeg/AppMarkerWriter.cpp:567-612 | Segments as written or reserved end where their update needs them to |
| DebugData.UpdateIsWriteIffNoExif | libhwjpeg/AppMarkerWriter.cpp:567-612 | That holds for the segments of a whole stream if and only if there is no Exif segment and something follows the segments |
| DebugData.FinishedIsWritten | libhwjpeg/ExynosJpegEncoderForCamera.cpp:338-442 | Finished pictures are such streams, and something follows their segments |
| DebugData.PictureUpdatedIffNoExif | libhwjpeg/AppMarkerWriter.cpp:545-615 | So for every finished picture with extra segments an update is the same as writing the new data exactly if it has no Exif |
| DebugData.ExifIsMistaken | libhwjpeg/AppMarkerWriter.cpp:580-596 | An Exif segment is taken for the first extra one: the update refuses, or destroys the Exif identifier |
| DebugData.MistakenExample | libhwjpeg/AppMarkerWriter.cpp:580-596 | A concrete stream whose Exif identifier is overwritten, with success reported |
| SwScaler.ScalerNv12.Scale | libscaler/libscaler-swscaler.cpp:61-106 | Both planes become the closed form of the old ones: samples inside the rectangle, the old bytes outside; chroma of a pixel is at half its place and comes from the sample for half its place; odd sizes are refused unchanged |
| SwScaler.ChromaIsScaled | libscaler/libscaler-swscaler.cpp:89-103 | Which chroma elements are stored, for every pixel of the rectangle, and that no others are |
| SwScaler.ScalerYuyv.Scale | libscaler/libscaler-swscaler.cpp:23-59 | The same for packed YUYV, for any left edge |
| SwScaler.ScalePlane | libscaler/libscaler-swscaler.cpp:75-84 | The loops over a plane compute the closed form in 32-bit arithmetic |
| SwScaler.ScaleRow | libscaler/libscaler-swscaler.cpp:76-81 | One row of it |
| SwScaler.ScaleRowYuyv | libscaler/libscaler-swscaler.cpp:37-53 | One row of YUYV, with the chroma bytes of a pair stored at its even pixel |
| SwScaler.StepExact | libscaler/libscaler-swscaler.cpp:76-84 | The accumulator neither wraps nor is ever clamped, and its integer part is the sample's position |
| SwScaler.AddressExact | libscaler/libscaler-swscaler.cpp:78-78 | Addresses computed in 32 bits are the right ones in planes of less than 4 GiB |
| SwScaler.SampleInside | libscaler/libscaler-swscaler.cpp:68-84 | Samples lie in the source rectangle and keep their order |
| SwScaler.SampleError | libscaler/libscaler-swscaler.cpp:68-69 | A sample is at most one pixel short of the exact quotient for every 2^16 destination pixels begun, and never beyond it |
| SwScaler.SampleErrorGrows | libscaler/libscaler-swscaler.cpp:68-69 | Beyond 2^16 destination pixels it can be two pixels short |
| SwScaler.SampleExact | libscaler/libscaler-swscaler.cpp:68-69 | It is exact wherever the ratio is |
| SwScaler.RatioHalved | libscaler/libscaler-swscaler.cpp:89-103 | Using the luma ratio for the chroma plane is right: halving both sizes leaves it the same |
| SwScaler.ScaledAt | libscaler/libscaler-swscaler.cpp:75-84 | Every element of a scaled plane: the sample for its place, or the old value outside the rectangle |
| SwScaler.EqualSizesCopy | libscaler/libscaler-swscaler.cpp:61-106 | Equal sizes give an exact copy |
| SwScaler.EqualSizesCopyChroma | libscaler/libscaler-swscaler.cpp:89-103 | With equal sizes each pixel gets the chroma of its own source pixel |
| SwScaler.HalvesPart | libscaler/libscaler-swscaler.cpp:61-106 | A part of a picture shrunk to half its sides, element by element |
| SwScaler.ScaledYuyvAt | libscaler/libscaler-swscaler.cpp:36-56 | Luma and chroma bytes of every pixel of the rectangle |
| SwScaler.EqualSizesCopyYuyv | libscaler/libscaler-swscaler.cpp:23-59 | Equal sizes give an exact copy, byte for byte, for an even left edge |
| SwScaler.ShrinksRow | libscaler/libscaler-swscaler.cpp:23-59 | A row of eight pixels shrunk to two, byte by byte |
| SwScaler.StoresRectangleIffLeftEven | libscaler/libscaler-swscaler.cpp:24-56 | Exactly the bytes of the destination rectangle are stored if and only if its left edge is even, which is not checked |
| SwScaler.OddLeftExample | libscaler/libscaler-swscaler.cpp:24-56 | An odd left edge: one chroma byte of the rectangle is missed and one outside is overwritten |
| ScalerV4l2.Scaler.DequeueFrame | libscaler/libscaler-v4l2.cpp:480-515 | The queued flag is cleared whatever the driver answers |
| ScalerV4l2.Scaler.ResetDevice | libscaler/libscaler-v4l2.cpp:246-274 | The queue is idle afterwards, and an idle queue gets no request |
| ScalerV4l2.Scaler.SetFrameFormat | libscaler/libscaler-v4l2.cpp:276-338 | Format and crop are set only when changed and only on an idle queue; afterwards the driver has them |
| ScalerV4l2.Scaler.RequestFrame | libscaler/libscaler-v4l2.cpp:407-432 | Buffers are requested once |
| ScalerV4l2.Scaler.StreamFrame | libscaler/libscaler-v4l2.cpp:458-478 | Streaming is started once, and only with buffers |
| ScalerV4l2.Scaler.QueueFrame | libscaler/libscaler-v4l2.cpp:348-405 | A buffer is queued only with buffers requested, after taking an older one back |
| ScalerV4l2.Scaler.Stop | libscaler/libscaler-v4l2.cpp:99-112 | Both queues are idle |
| ScalerV4l2.Scaler.SetFormats | libscaler/libscaler-v4l2.cpp:340-346 | Formats of both queues; unchanged ones get no request |
| ScalerV4l2.Scaler.ReqBufs | libscaler/libscaler-v4l2.h:207-212 | Buffers of both queues, requested once |
| ScalerV4l2.Scaler.StreamOnBoth | libscaler/libscaler-v4l2.h:225-230 | Both queues stream, each started once |
| ScalerV4l2.Scaler.QBuf | libscaler/libscaler-v4l2.h:214-223 | If the second buffer cannot be queued, neither counts as queued; both are if nothing is refused and no buffer is stuck |
| ScalerV4l2.Scaler.DQBuf | libscaler/libscaler-v4l2.h:232-237 | On success the driver holds no buffer |
| ScalerV4l2.Scaler.SetCtrl | libscaler/libscaler-v4l2.cpp:142-239 | All eight controls that are waiting are sent with both queues idle, and of those afterwards the driver has just the ones that are not lost; only the colour equation and the frame rate can be, not if it takes them and always if it refuses them; with nothing changed and no filter there is no request at all |
| ScalerV4l2.Scaler.SetProtection | libscaler/libscaler-v4l2.cpp:146-162 | Content protection is set when changed, with both queues idle, and counts as set only if it was; then the driver has it |
| ScalerV4l2.Scaler.SetRotation | libscaler/libscaler-v4l2.cpp:164-192 | Rotation and both flips count as set only if all three were; then the driver has them |
| ScalerV4l2.Scaler.SetCsc | libscaler/libscaler-v4l2.cpp:206-223 | The colour range and then the equation are sent; they count as set if the range was, and the equation is lost if the driver refuses it, and not if it takes it |
| ScalerV4l2.Scaler.SetRate | libscaler/libscaler-v4l2.cpp:225-236 | The frame rate is sent when changed, and lost if the driver refuses it, and not if it takes it |
| ScalerV4l2.Scaler.SendCsc | libscaler/libscaler-v4l2.cpp:206-223 | The two requests: the equation is lost exactly if the second one is refused, and whatever is not lost is in the driver |
| ScalerV4l2.Scaler.SendRate | libscaler/libscaler-v4l2.cpp:225-236 | The request: the frame rate is lost exactly if it is refused, and is marked as set in any case |
| ScalerV4l2.HeldIffNotLost | libscaler/libscaler-v4l2.cpp:142-239 | After all that was waiting has been sent, the driver has a control's value exactly if it is not lost or was there before |
| ScalerV4l2.SendsTwice | libscaler/libscaler-v4l2.cpp:142-239 | Sending some controls and then others, whatever is refused, is sending all of them |
| ScalerV4l2.Scaler.SetDenoise | libscaler/libscaler-v4l2.cpp:194-204 | A filter is set anew each time, and setting it to 0 leaves the driver's as it was |
| ScalerV4l2.Scaler.Convert | libscaler/libscaler-v4l2.cpp:134-139 | If queueing fails both queues are stopped, so that the driver is left with no buffer; if taking back fails that was the last request |
| ScalerV4l2.Scaler.Prepare | libscaler/libscaler-v4l2.cpp:125-132 | Formats, buffers and streaming; no request at all if everything is ready |
| ScalerV4l2.Scaler.RunSoftware | libscaler/libscaler-v4l2.cpp:547-652 | For a destination that has pixels: succeeds if and only if formats agree and are one of six, nothing is rotated, the sizes are even as the format needs and the buffers could be mapped; each format's number of planes |
| ScalerV4l2.Scaler.DividesByZeroIff | libscaler/libscaler-swscaler.cpp:29-69 | Which settings lead to the division by zero: those that the software scaler takes and the hardware does not, with a destination side of 0 |
| ScalerV4l2.Scaler.SoftwareCanIff | libscaler/libscaler-v4l2.cpp:547-652 | What software can convert, by the codes of the six formats and the sides that have to be even |
| ScalerV4l2.Scaler.HardwareIff | libscaler/libscaler-common.h:85-92 | What the hardware can convert: no side is reduced by more than 16, compared with the side that it becomes under the rotation, in 32-bit arithmetic |
| ScalerV4l2.Scaler.HardwareIffNear | libscaler/libscaler-common.h:85-92 | The same for destination sides below 2^28, where nothing wraps around |
| ScalerV4l2.EmptyDestination | libscaler/libscaler-swscaler.cpp:29-30 | A new scaler whose destination crop has not been set gets there |
| ScalerV4l2.Scaler.ChangeFormat | libscaler/libscaler-v4l2.h:130-137 | A format is marked as to be set |
| ScalerV4l2.Scaler.ChangeCrop | libscaler/libscaler-v4l2.h:139-147 | So is a crop |
| ScalerV4l2.Scaler.SetDrm | libscaler/libscaler-v4l2.h:259-267 | Protection is marked only if it changes |
| ScalerV4l2.Scaler.Run | libscaler/libscaler-v4l2.cpp:114-140 | If it does not divide by zero: after success nothing is left to be set, and for each of the eight controls the driver has the value last asked for if and only if it is not lost or was there before; of the controls sent none is lost but the equation or the rate, if the driver refuses it; a second run without changes makes exactly four requests; with a driver that refuses nothing but those two and holds no stuck buffer it succeeds |
| ScalerV4l2.LeavesFilter | libscaler/libscaler-v4l2.cpp:194-204 | Two successful runs, with filter 2 and then 0, after which the driver still has filter 2 |
| ScalerV4l2.LosesEquation | libscaler/libscaler-v4l2.cpp:206-223 | Two successful runs on a driver that refuses the colour equation alone, after which it still has the old one although a new one was chosen |
| ScalerV4l2.GivesSettings | libscaler/libscaler-v4l2.cpp:114-239 | All settings chosen at once, and the eight controls as a driver without objections has them after one conversion |
| ScalerV4l2.Scaler.Serve | libscaler/libscaler-v4l2.cpp:114-140 | With a driver that refuses nothing but the two optional controls, any settings may be changed between any number of conversions: every one that hardware or software is able to do succeeds, up to one that divides by zero |
| ScalerV4l2.Scaler.RunExclusive | libscaler/libscaler.cpp:597-642 | The non-blocking run leaves both buffers queued, with each control in the driver under the same condition as for `Run`; with a driver that refuses nothing but the two optional controls and holds no stuck buffer it succeeds |
| ScalerV4l2.Scaler.QueueAhead | libscaler/libscaler.cpp:597-642 | Buffers are requested and queued before streaming starts, with formats set first |
| ScalerV4l2.Scaler.SetRotate | libscaler/libscaler-v4l2.cpp:434-456 | Any multiple of 90 degrees is taken, reduced to a full turn |
| ScalerV4l2.Degrees | libscaler/libscaler-v4l2.h:115-122 | The reduction by a truncating remainder is right for negative angles too |
| ScalerV4l2.Scaler.Use | libscaler/libscaler-v4l2.h:190-322 | Over every sequence of public calls, up to one that divides by zero, whatever fails: flags imply one another, settings are changed only on idle queues, and with a driver that releases reliably no request is out of order but queueing where a buffer is stuck and taking back where streaming has not begun |
| HwJpegV4l2.Compressor.ReqBufs | libhwjpeg/hwjpeg-v4l2.cpp:524-562 | Both queues get buffers or neither does |
| HwJpegV4l2.Compressor.RequestBoth | libhwjpeg/hwjpeg-v4l2.cpp:524-562 | The second queue's refusal takes the first one's buffers back |
| HwJpegV4l2.Compressor.StreamOnBoth | libhwjpeg/hwjpeg-v4l2.cpp:564-586 | Both queues stream or neither does |
| HwJpegV4l2.Compressor.StreamPair | libhwjpeg/hwjpeg-v4l2.cpp:564-586 | The second queue's refusal stops the first one again |
| HwJpegV4l2.Compressor.StreamOffBoth | libhwjpeg/hwjpeg-v4l2.cpp:588-601 | Streaming counts as stopped even if the driver refuses |
| HwJpegV4l2.Compressor.Halt | libhwjpeg/hwjpeg-v4l2.cpp:395-401 | Stopping takes back all queued buffers |
| HwJpegV4l2.Compressor.StopStreaming | libhwjpeg/hwjpeg-v4l2.cpp:394-410 | Nothing is queued or streaming afterwards; success means that the buffers are released too |
| HwJpegV4l2.Compressor.SetFormats | libhwjpeg/hwjpeg-v4l2.cpp:461-483 | Formats are set only while stopped, and only both together count as set; the stream's format follows the image format as the driver adjusts it |
| HwJpegV4l2.Compressor.UpdateControls | libhwjpeg/hwjpeg-v4l2.cpp:485-522 | All chosen controls are sent at once, with the HWFC switch if it changes; those of a request that fails are forgotten until they are sent again, and of one that succeeds in the driver |
| HwJpegV4l2.Compressor.CollectControls | libhwjpeg/hwjpeg-v4l2.cpp:498-507 | The loop over the bit set ends, and collects each waiting control once |
| HwJpegV4l2.SentForces | libhwjpeg/hwjpeg-v4l2.cpp:485-522 | What a request carries is in force if it succeeds and forgotten if it fails; all else stays as it was |
| HwJpegV4l2.SentHeld | libhwjpeg/hwjpeg-v4l2.cpp:485-522 | After a request the driver has exactly the chosen values that it carried and those that the driver had before |
| HwJpegV4l2.Compressor.QBuf | libhwjpeg/hwjpeg-v4l2.cpp:603-626 | Both buffers are queued or none: if the second fails everything is stopped |
| HwJpegV4l2.Compressor.QueuePair | libhwjpeg/hwjpeg-v4l2.cpp:603-622 | The two requests, the second only after the first |
| HwJpegV4l2.Compressor.DQBuf | libhwjpeg/hwjpeg-v4l2.cpp:628-678 | Neither buffer counts as queued afterwards; sizes are reported only if both came back undamaged |
| HwJpegV4l2.Compressor.TakeBoth | libhwjpeg/hwjpeg-v4l2.cpp:651-662 | Both buffers are asked for even if the first does not come back |
| HwJpegV4l2.Compressor.Start | libhwjpeg/hwjpeg-v4l2.cpp:447-447 | Buffers, streaming, controls and queueing, in this order; what becomes of the controls, and when it succeeds |
| HwJpegV4l2.Compressor.SendAndQueue | libhwjpeg/hwjpeg-v4l2.cpp:447-447 | The controls are sent ahead of the buffers, and stay sent if queueing fails |
| HwJpegV4l2.Compressor.ApplyFormat | libhwjpeg/hwjpeg-v4l2.cpp:412-415 | A changed format is applied with both queues released, an unchanged one makes no request |
| HwJpegV4l2.Compressor.WaitForCompression | libhwjpeg/hwjpeg-v4l2.cpp:680-682 | The second half of a non-blocking compression: both buffers are asked for, and success and sizes are as the driver gives them back |
| HwJpegV4l2.Compressor.Release | libhwjpeg/hwjpeg-v4l2.cpp:750-752 | Nothing is left queued or streaming |
| HwJpegV4l2.Compressor.Compress | libhwjpeg/hwjpeg-v4l2.cpp:412-450 | On success the format is the last one as adjusted, and a chosen control or the HWFC switch is in force if and only if it is not forgotten or was in the driver before; controls sent are no longer forgotten; non-blocking it leaves both buffers queued, blocking none; with all buffers named, empty queues and a driver that refuses nothing it succeeds |
| HwJpegV4l2.LosesQuality | libhwjpeg/hwjpeg-v4l2.cpp:485-522 | Quality 50 is chosen, a first compression fails over the controls and a second one succeeds, without that quality in the driver |
| HwJpegV4l2.GivesControls | libhwjpeg/hwjpeg-v4l2.cpp:83-138 | Sampling, qualities and the HWFC switch chosen, and the controls as a driver without objections has them after one compression |
| HwJpegV4l2.Compressor.SetImageFormat | libhwjpeg/hwjpeg-v4l2.cpp:208-223 | A new format is tried with the driver, is taken exactly if the driver agrees, marked for the next compression and becomes what the driver adjusts it to; an equal one is left alone, without a request |
| HwJpegV4l2.Compressor.SetChromaSampFactor | libhwjpeg/hwjpeg-v4l2.cpp:83-112 | Exactly five pairs of factors are supported |
| HwJpegV4l2.Compressor.SetQuality | libhwjpeg/hwjpeg-v4l2.cpp:114-138 | Factors above 100 are refused, 0 leaves a factor as it is |
| HwJpegV4l2.Compressor.SetImageBuffer | libhwjpeg/hwjpeg-v4l2.cpp:244-294 | Taken exactly if there is a buffer for each plane and none is too small |
| HwJpegV4l2.Compressor.SetImageBuffer2 | libhwjpeg/hwjpeg-v4l2.cpp:296-351 | Taken exactly by devices that compress back to back, with a buffer for each plane, of any size |
| HwJpegV4l2.Compressor.SetJpegBuffer | libhwjpeg/hwjpeg-v4l2.cpp:353-392 | The secondary stream's buffer is taken by such devices only |
| HwJpegV4l2.Compressor.IsB2BIff | libhwjpeg/include/exynos-hwjpeg.h:596-599 | A secondary image of any size makes a compression back to back |
| HwJpegV4l2.Compressor.Use | libhwjpeg/hwjpeg-v4l2.cpp:83-752 | Over every sequence of public calls, whatever fails: streaming implies buffers, the two queued flags are equal and imply streaming, formats are set only when stopped and released |
| GscRing.Ring.Distinct | libgscaler/libgscaler_obj.cpp:1502-1578 | The outstanding buffers are all different, and the next one is not among them unless all are outstanding |
| GscRing.Ring.TakeOldest | libgscaler/libgscaler_obj.cpp:1518-1533 | The oldest buffer is taken back with the first answer that is not to try again, within eleven attempts, or not at all |
| GscRing.LastTryIs | libgscaler/libgscaler_obj.cpp:1518-1533 | Which of the tries allowed is the last one: the first that is not answered with a wish to try again, or the last allowed |
| GscRing.Ring.QueueNext | libgscaler/libgscaler_obj.cpp:1536-1578 | A buffer that the driver holds is never queued; the counters move only with the driver |
| GscRing.Ring.Run | libgscaler/libgscaler_obj.cpp:1485-1589 | Succeeds if and only if a full ring gets its oldest buffer back within the tries allowed, the sizes are known, queueing is granted and streaming is on or can be started; the outstanding buffers are then the old ones without the oldest of a full ring and with the next one, and all in between if it fails; ring and driver stay in step whatever fails |
| GscRing.Ring.RunAll | libgscaler/libgscaler_obj.cpp:1006-1685 | Over any mix of runs and configurations: the ring gets out of step only by a configuration that fails while a buffer is outstanding, and never with runs alone; with a driver that grants everything every run succeeds; no run makes more requests than its tries and three more |
| GscRing.UseBoth | libgscaler/libgscaler_obj.cpp:1485-1685 | Rings of ten and of one, neither ever overfilled; thirteen requests at most for each step of the first, and three for each run of the second, which does not try again |
| GscRing.Ring.Configure | libgscaler/libgscaler_obj.cpp:1006-1018 | Succeeds exactly if nothing streams, the sizes fit and the driver grants all; ring and driver stay in step if and only if it succeeds, is refused ahead of the reset, or no buffer was counted before |
| GscRing.SlotsAreCyclic | libgscaler/libgscaler_obj.cpp:1575-1578 | Consecutive places of the ring hold consecutive indices, modulo its length |
| GscRing.LosesTrack | libgscaler/libgscaler_obj.cpp:1006-1018 | A run of three requests after which the ring counts no buffer while one is outstanding |
| G2dFilters.FilterIndexIsFirst | libacryl/acrylic_g2d.cpp:280-292 | The first filter made for the reduction, or the last one |
| G2dFilters.DefaultFilter | libacryl/acrylic_g2d.cpp:280-292 | The default filter serves exactly the layers that are not reduced |
| G2dFilters.FilterByReduction | libacryl/acrylic_g2d.cpp:280-292 | Which filter serves which factor: the first of 8/8 to 8/2 that is strong enough, the last one for all beyond |
| G2dFilters.LayerCountExact | libacryl/acrylic_g2d.cpp:339-393 | The count of a layer's registers is exact although writing ends early when luma needs no filter: 72 and 36 for each plane that is reduced, by its format's chroma factors |
| G2dFilters.GetFilterCoefficientCount | libacryl/acrylic_g2d.cpp:367-393 | So is the count over all layers |
| G2dFilters.WriteFilter | libacryl/acrylic_g2d.cpp:294-321 | A filter's coefficients are written once each to its registers, transposed, and nothing for the default filter |
| G2dFilters.WritePhase | libacryl/acrylic_g2d.cpp:305-317 | One phase of it, every tap nine registers behind the last |
| G2dFilters.WritePlane | libacryl/acrylic_g2d.cpp:350-351 | Vertical filter, then horizontal filter |
| G2dFilters.WriteFilterCoefficients | libacryl/acrylic_g2d.cpp:339-365 | A layer's registers: vertical before horizontal, luma before chroma |
| G2dFilters.UpdateFilterCoefficients | libacryl/acrylic_g2d.cpp:578-592 | The registers of all layers, one after the other, if the filter is in use at all |
| G2dFilters.PlacesAreContiguous | libacryl/acrylic_g2d.cpp:304-318 | Phases and taps are mapped one to one onto a range without gaps |
| G2dFilters.LayerRegsDistinct | libacryl/acrylic_g2d.cpp:339-365 | A layer's registers are all different and inside its own bank |
| G2dFilters.LayersRegsDistinct | libacryl/acrylic_g2d.cpp:199-214 | Over all layers, planes, directions, phases and taps no register is written twice |
| G2dFilters.CoefficientsInPlace | libacryl/acrylic_g2d.cpp:294-365 | Every coefficient of every filter needed is in the register for its layer, plane, direction, phase and tap; chroma is halved as 4:2:0 and 4:2:2 demand |
| G2dTask.SameMatrix | libacryl/acrylic_g2d.cpp:178-190 | Which dataspaces share a matrix |
| G2dTask.MatrixIffListed | libacryl/acrylic_g2d.cpp:51-63 | A standard without a matrix is not found out: its index lies behind the eight matrices |
| G2dTask.MatrixOf | libacryl/acrylic_g2d.cpp:34-63 | Which standard has which matrix, by the standards' numbers |
| G2dTask.BehindTheMatrices | libacryl/acrylic_g2d.cpp:51-63 | BT470M is taken for matrix 510 |
| G2dTask.CscMatrixWriter.constructor | libacryl/acrylic_g2d.cpp:101-111 | A target without a matrix is let through; the matrix to be written exists exactly if the standard is not BT470M or Adobe RGB |
| G2dTask.CscMatrixWriter.Configure | libacryl/acrylic_g2d.cpp:113-142 | Succeeds exactly if the standard is in the table and its matrix has a slot or one is free; slots stay distinct and at most four, and a slot without a matrix is taken exactly for BT470M and Adobe RGB |
| G2dTask.CscMatrixWriter.Write | libacryl/acrylic_g2d.cpp:151-167 | Writes as many registers as counted, the target's matrix first and then every slot's |
| G2dTask.WriteSingle | libacryl/acrylic_g2d.cpp:170-176 | Nine consecutive registers |
| G2dTask.SlotAt | libacryl/acrylic_g2d.cpp:160-164 | Each slot's registers hold the matrix put there |
| G2dTask.SelectedMatrix | libacryl/acrylic_g2d.cpp:113-176 | A layer's selector leads to registers with the matrix of its own dataspace, and has its range |
| G2dTask.TargetMatrix | libacryl/acrylic_g2d.cpp:151-158 | The target's matrix is in registers of its own |
| G2dTask.ExtraDistinct | libacryl/acrylic_g2d.cpp:151-214 | No register is written twice by matrices and filters together |
| G2dTask.ConfigureLayers | libacryl/acrylic_g2d.cpp:1117-1133 | Succeeds if and only if all standards are in the table and at most four matrices are needed; then every selector resolves, and every slot has a matrix exactly if no layer is BT470M or Adobe RGB |
| G2dTask.BuildExtra | libacryl/acrylic_g2d.cpp:1161-1174 | The extra registers are as many as counted, filled with matrices, filters and HDR commands to the last one |
| Transform.G2dMeansHal | libacryl/acrylic_g2d.cpp:905-917 | For every transform, size and pixel: rotating counterclockwise and flipping as encoded is flipping and rotating clockwise |
| Transform.G2dRotate | libacryl/acrylic_g2d.cpp:904-917 | Only the rotation bit and the two flip bits are used |
| Transform.G2dBits | libacryl/acrylic_g2d.cpp:908-917 | Under rotation the register holds the opposite of each flip, in the other's place |
| Transform.FlipPastRotation | libacryl/acrylic_g2d.cpp:911-915 | A flip before a rotation is the other flip after it |
| Transform.GscMeansHal | libgscaler/libgscaler_obj.cpp:1389-1424 | For every transform, size and pixel: rotating and flipping as decoded is flipping and rotating clockwise |
| Transform.HalPlaceIs | libgscaler/libgscaler_obj.cpp:1389-1424 | Where each of the eight transforms takes a pixel |
| Transform.HalIsPermutation | libacryl/acrylic_g2d.cpp:905-917 | Every pixel stays in the image, whose sides are swapped by the rotation, and no two meet |
| Transform.TransformsDiffer | libgscaler/libgscaler_obj.cpp:1389-1424 | Different transforms have different encodings |
| Transform.PrepareScaling | libacryl/acrylic_g2d.cpp:904-929 | A layer gets the rotation of its transform, the quotients of crop and window, swapped under rotation, in 16 bits of fraction, showing each reduction, and no scaling exactly if its crop has the window's size |
| Transform.PrepareFactors | libacryl/acrylic_g2d.cpp:919-924 | Both factors, against the window as it lies before the rotation; combined they are 1.0 exactly if the crop has its size |
| Transform.PrepareRotation | libacryl/acrylic_g2d.cpp:904-917 | The rotation register takes every pixel where the HAL wants it |
| Transform.FactorIs | libacryl/acrylic_g2d.cpp:202-202 | A scale factor is the quotient of source and destination, and more than 1.0 exactly for a reduction |
| Transform.UnscaledFactor | libacryl/acrylic_g2d.cpp:202-202 | A scale factor is 1.0 exactly between equal sides |
| Transform.OrIsOne | libacryl/acrylic_g2d.cpp:924-924 | Testing the bitwise or of both factors tests each of them |
| Composer.Engine.OnRefresh | hwc3/ComposerClient.cpp:477-484 | A refresh marks the display as to be validated |
| Composer.Engine.ExecuteValidateDisplayInternal | hwc3/ComposerCommandEngine.cpp:174-198 | Validation clears the mark whatever it returns |
| Composer.Engine.ExecutePresentDisplay | hwc3/ComposerCommandEngine.cpp:315-326 | Fences are returned exactly if presenting succeeded |
| Composer.Engine.ExecuteAcceptDisplayChanges | hwc3/ComposerCommandEngine.cpp:307-313 | An error is reported and does not stop the command |
| Composer.Engine.ExecuteValidateDisplay | hwc3/ComposerCommandEngine.cpp:258-263 | The expected present time is handed over and then the display is validated, once; no other call is made |
| Composer.Engine.ExecutePresentOrValidateDisplay | hwc3/ComposerCommandEngine.cpp:274-305 | The exact sequence of calls and the result, as functions of the mark, the errors and the client composition: an unmarked display is presented at once, and otherwise or on refusal the fallback is taken |
| Composer.Engine.PresentAsIs | hwc3/ComposerCommandEngine.cpp:274-284 | The first attempt: a marked display counts as refused without being presented |
| Composer.OneResult | hwc3/ComposerCommandEngine.cpp:274-305 | `Presented` exactly if one present succeeds, and never two; `Validated` exactly if validation asks for changes, or asks for none and there is client composition |
| Composer.Engine.ValidateThenPresent | hwc3/ComposerCommandEngine.cpp:286-304 | The fallback, call by call: validate, ask for client composition, and accept and present only if the client has nothing to do; the result is that of the last call |
| Composer.Engine.AcceptAndPresent | hwc3/ComposerCommandEngine.cpp:300-304 | The second attempt, and its result |
| Composer.Engine.ShowPlainly | hwc3/ComposerCommandEngine.cpp:143-146 | The exact calls for validation, acceptance and plain presentation, in this order, and what the client is told of each |
| Composer.Engine.Setting | hwc3/ComposerCommandEngine.cpp:97-119 | One call to the HAL with the answer it gives; its error, and nothing else, is reported with the command's index |
| Composer.Engine.ShowDisplay | hwc3/ComposerCommandEngine.cpp:143-149 | The exact calls for validation, acceptance, presentation and present-or-validate, as far as asked for, in this order, and what the client is told of each |
| Composer.Engine.DispatchDisplayCommand | hwc3/ComposerCommandEngine.cpp:121-149 | The exact calls for a command, with the errors returned, and the exact entries for the client: layers created and destroyed, brightness, the other values, validation, acceptance and presentation |
| Composer.CallsAreDispatched | hwc3/ComposerCommandEngine.cpp:121-149 | Everything that a command asks for is done, in order and once: layers, brightness, settings, present time and validation, acceptance, a plain present, and then the attempts of present-or-validate; all about the command's display |
| Composer.PresentOrValidateTries | hwc3/ComposerCommandEngine.cpp:274-305 | What present-or-validate calls, read off the errors alone: present, validation, client composition, acceptance and second present |
| Composer.ErrorsAreFailures | hwc3/ComposerCommandEngine.cpp:67-82 | The errors that the client gets from a list are exactly those of the failed calls, each with the index of its command |
| Composer.EntriesAreSuccesses | hwc3/ComposerCommandEngine.cpp:67-82 | Fences, changes and results are handed out for exactly the displays for which some command of the list earned them |
| Composer.PendingIffWaits | hwc3/ComposerCommandEngine.cpp:69-82 | A display is left waiting exactly if some command changes its brightness alone and no later one shows it |
| Composer.DispatchedEffect | hwc3/ComposerCommandEngine.cpp:121-149 | After a command's calls a brightness change waits if and only if none of them brought it into effect, and one handed it over to wait or it waited before |
| Composer.PerformedEffect | hwc3/ComposerCommandEngine.cpp:67-82 | The same over all commands of a list and the refresh requests between them |
| Composer.LeftIff | hwc3/ComposerCommandEngine.cpp:67-82 | That is the case exactly if some command handed over a change that waits, or one was waiting, and nothing from then on brought it into effect |
| Composer.StaysIff | hwc3/ComposerCommandEngine.cpp:67-95 | With flushes that succeed, exactly those changes stay without effect whose display the list does not commit and does not leave to be flushed |
| Composer.FaultlessLeft | hwc3/ComposerCommandEngine.cpp:67-82 | What the commands of a list leave waiting for the flush, with such a HAL: a change that no command from its own on presents |
| Composer.FaultlessStrands | hwc3/ComposerCommandEngine.cpp:67-95 | With a HAL that never fails, has no client composition and lets every change wait, that can be told from the commands: the display's last change is followed by nothing that presents it, but by a validation, be it its own command's |
| Composer.LeavesBrightness | hwc3/ComposerCommandEngine.cpp:67-95 | A command with brightness and validation: nothing fails, nothing is flushed, and the change is without effect |
| Composer.Engine.Execute | hwc3/ComposerCommandEngine.cpp:67-95 | The calls of each command do all that it asks for, in order and once, and follow from commands, refresh requests and the HAL's answers, and so does all that is returned to the client; flushes, once each and in ascending order up to the first failure, just the displays with a standalone brightness change, and returns that failure; a change is without effect afterwards if and only if nothing brought it into effect since and it was not flushed with success; with a HAL without faults if and only if the list strands it |
| Composer.Engine.FlushAll | hwc3/ComposerCommandEngine.cpp:87-94 | In ascending order, up to the first failure: the last flush returned the result and those before it none |
| Composer.Engine.Serve | hwc3/ComposerCommandEngine.cpp:67-305 | Over any commands and refresh requests: present-or-validate never presents after a refresh that no validation has followed |

## Left out

- IfdWriters.IfdWriter.WriteLong: models count 1 only, the one count in use.
- IfdWriters.IfdWriter.WriteSRational: numbers are 32-bit patterns; their sign plays no part in storing them.
- ExifUpdate.UpdateExif: what is stored beyond the buffer when the directories do not fit it.
- CameraEncoder.Encoder.ProcessExif: what is stored beyond the buffer when the segments do not fit it; it also requires that the dummy bytes at their end lie in the buffer, where the main stream is to begin.
- DebugData.UpdateDebugData: what happens beyond the stream when a segment's length leads there.
- DebugData.UpdateSegments: the same.
- DebugData.UpdateKeepsVerdict: the same.
- G2dTask.CscMatrixWriter.Write: what is read behind the tables for a standard without a matrix.
- EncodedStream.Encode: inputs whose segments overrun the buffer, as for `ProcessExif`; the non-blocking path, which returns 0 and finishes later by the same `FinishCompression`; buffer types and thumbnail generation are parameters.
- CameraEncoder.Encoder.CompressThumbnailOnly: configuring the thumbnail compressor is part of its result, a stream or a failure.
- ScalerV4l2.Scaler.RunSoftware: whether buffers can be mapped is a parameter; the scaling itself is in `SwScaler`; what a division by zero leads to.
- ScalerV4l2.Scaler.Use: queues that agree exactly with the driver, and requests in order, assume that STREAMOFF and REQBUFS(0) succeed; a buffer whose queueing was rolled back may stay in the driver.
- HwJpegV4l2.Compressor.Use: the same assumption; the addresses of buffers and the computation of padding bytes are left out, and what the driver makes of a format and of its planes' sizes are parameters.
- GscRing.Ring.Run: plane sizes and addresses are a parameter that says whether they are known.
- G2dTask.BuildExtra: tasks with an image in BT470M or Adobe RGB; the numbers in the filter and matrix tables are parameters of the right shape.
- Composer.Engine.Serve: refresh requests come between commands, also within a list, but not in the middle of a command.
- `CancelSubIFD` and the branches that call it, which cannot be reached; the big-endian branches of `WriteDataInBig`.
- ExynosExif.h, system/graphics.h and hwcomposer2.h are not part of this model; tag numbers and types are those of Exif 2.2 and TIFF 6.0, HAL constants those of the Android platform.
- Changing the premultiplied-alpha setting or the memory type alone, which marks nothing as changed; the blending subclass of the scaler.
- The exchange of the two flip controls between the G-Scaler's interface and its driver, and its memory-to-memory mode.
- Chroma scale factors that do not suit the format, such as 4:2:2 and P010; SBWC and AFBC layouts; blending registers.
- Resources, buffers and layers of the command engine, whose calls are counted but not told apart; errors of its own resource bookkeeping.
- Whether a present that succeeds commits a frame: the model takes it that it does. Whether a brightness change waits for that, is made at once or not at all is up to the HAL, which may choose anew each time.
- Decompression, format tables, device discovery, memory allocation, threads and logging.
