/** The Exif attributes of a picture (`exif_attribute_t`) and the directories they are written to. */
module Exif {
  import opened Bytes
  import opened Tiff
  import opened IfdWriters

  type Chars2 = s: seq<byte> | |s| == 2 witness [0, 0]

  type Chars4 = s: seq<byte> | |s| == 4 witness [0, 0, 0, 0]

  type Rational3 = s: seq<Rational> | |s| == 3 witness [Rational(0, 0), Rational(0, 0), Rational(0, 0)]

  /** Character arrays that hold C strings are given by their contents before the terminator. */
  datatype Attributes = Attributes(
    maker: seq<byte>,
    model: seq<byte>,
    software: seq<byte>,
    dateTime: seq<byte>,
    orientation: u16,
    ycbcrPositioning: u16,
    xResolution: Rational,
    yResolution: Rational,
    resolutionUnit: u16,
    exposureTime: Rational,
    fnumber: Rational,
    exposureProgram: u16,
    isoSpeedRating: u16,
    exifVersion: Chars4,
    shutterSpeed: Rational,
    aperture: Rational,
    brightness: Rational,
    exposureBias: Rational,
    maxAperture: Rational,
    meteringMode: u16,
    flash: u16,
    focalLength: Rational,
    secTime: seq<byte>,
    makerNote: seq<byte>,
    userComment: seq<byte>,
    colorSpace: u16,
    width: u32,
    height: u32,
    customRendered: u16,
    exposureMode: u16,
    whiteBalance: u16,
    digitalZoomRatio: Rational,
    focalLengthIn35mm: u16,
    sceneCaptureType: u16,
    contrast: u16,
    saturation: u16,
    sharpness: u16,
    uniqueId: seq<byte>,
    interoperabilityThm: bool,
    enableGps: bool,
    gpsVersionId: Chars4,
    gpsLatitudeRef: Chars2,
    gpsLatitude: Rational3,
    gpsLongitudeRef: Chars2,
    gpsLongitude: Rational3,
    gpsAltitudeRef: byte,
    gpsAltitude: Rational,
    gpsDateStamp: seq<byte>,
    gpsTimestamp: Rational3,
    gpsProcessingMethod: seq<byte>,
    enableThumb: bool,
    widthThumb: u32,
    heightThumb: u32,
    compressionScheme: u16)

  const DATETIME_LENGTH := 20
  const SUBSECTIME_LENGTH := 5
  const GPSDATESTAMP_LENGTH := 11
  const MAX_GPS_PROCESSINGMETHOD_SIZE := 108
  const ASCII_PREFIX: seq<byte> := [0x41, 0x53, 0x43, 0x49, 0x49, 0, 0, 0]
  const COMPONENTS_CONFIGURATION: seq<byte> := [1, 2, 3, 0]
  const SCENE_TYPE: seq<byte> := [1, 0, 0, 0]
  const VERSION_0100: seq<byte> := [0x30, 0x31, 0x30, 0x30]
  const THM: seq<byte> := [0x54, 0x48, 0x4D, 0]
  const R98: seq<byte> := [0x52, 0x39, 0x38, 0]

  function Short(tag: u16, v: u16): Field { Value(tag, SHORT, ShortBytes([v])) }

  function Long(tag: u16, v: u32): Field { Value(tag, LONG, Le32(v)) }

  function Rationals(tag: u16, rs: seq<Rational>): Field { Value(tag, RATIONAL, RationalBytes(rs)) }

  function SRational(tag: u16, r: Rational): Field { Value(tag, SRATIONAL, RationalBytes([r])) }

  function Undef(tag: u16, data: seq<byte>): Field { Value(tag, UNDEFINED, data) }

  function Text(tag: u16, chars: seq<byte>, count: nat): Field
    requires count > 0
  {
    Value(tag, ASCII, CString(chars, count))
  }

  /** A string that is left out when it is empty. */
  function OptionalText(tag: u16, chars: seq<byte>): seq<Field> {
    if chars == [] then [] else [Value(tag, ASCII, chars + [0])]
  }

  function OptionalUndef(tag: u16, data: seq<byte>): seq<Field> {
    if data == [] then [] else [Undef(tag, data)]
  }

  /** The processing method is cut to the characters that fit beside its prefix and terminator. */
  function ProcessingMethod(e: Attributes): seq<byte> {
    e.gpsProcessingMethod[..Min(|e.gpsProcessingMethod|, MAX_GPS_PROCESSINGMETHOD_SIZE - |ASCII_PREFIX| - 1)]
  }

  function ZerothHead(e: Attributes): seq<Field> {
    [Short(0x0112, e.orientation), Short(0x0213, e.ycbcrPositioning), Rationals(0x011A, [e.xResolution]),
     Rationals(0x011B, [e.yResolution]), Short(0x0128, e.resolutionUnit)]
  }

  function ZerothTexts(e: Attributes): seq<Field> {
    OptionalText(0x010F, e.maker) + OptionalText(0x0110, e.model) + OptionalText(0x0131, e.software)
    + [Text(0x0132, e.dateTime, DATETIME_LENGTH)]
  }

  function ZerothFields(e: Attributes): seq<Field> {
    ZerothHead(e) + ZerothTexts(e) + [SubDir(EXIF_IFD_POINTER, ExifFields(e))]
    + if e.enableGps then [SubDir(GPS_IFD_POINTER, GpsFields(e))] else []
  }

  function ExifExposure(e: Attributes): seq<Field> {
    [Rationals(0x829A, [e.exposureTime]), Rationals(0x829D, [e.fnumber]), Short(0x8822, e.exposureProgram),
     Short(0x8827, e.isoSpeedRating), Undef(0x9000, e.exifVersion), Text(0x9003, e.dateTime, DATETIME_LENGTH),
     Text(0x9004, e.dateTime, DATETIME_LENGTH)]
  }

  function ExifLens(e: Attributes): seq<Field> {
    [SRational(0x9201, e.shutterSpeed), Rationals(0x9202, [e.aperture]), SRational(0x9203, e.brightness),
     SRational(0x9204, e.exposureBias), Rationals(0x9205, [e.maxAperture]), Short(0x9207, e.meteringMode),
     Short(0x9209, e.flash), Undef(0xA000, VERSION_0100), Undef(0x9101, COMPONENTS_CONFIGURATION),
     Rationals(0x920A, [e.focalLength])]
  }

  function ExifNotes(e: Attributes): seq<Field> {
    [Text(0x9290, e.secTime, SUBSECTIME_LENGTH), Text(0x9291, e.secTime, SUBSECTIME_LENGTH),
     Text(0x9292, e.secTime, SUBSECTIME_LENGTH)]
    + OptionalUndef(0x927C, e.makerNote) + OptionalUndef(0x9286, e.userComment)
  }

  function ExifImage(e: Attributes): seq<Field> {
    [Short(0xA001, e.colorSpace), Long(0xA002, e.width), Long(0xA003, e.height), Undef(0xA301, SCENE_TYPE),
     Short(0xA401, e.customRendered), Short(0xA402, e.exposureMode), Short(0xA403, e.whiteBalance)]
  }

  function ExifScene(e: Attributes): seq<Field> {
    [Rationals(0xA404, [e.digitalZoomRatio]), Short(0xA405, e.focalLengthIn35mm), Short(0xA406, e.sceneCaptureType),
     Short(0xA408, e.contrast), Short(0xA409, e.saturation), Short(0xA40A, e.sharpness)]
    + OptionalText(0xA420, e.uniqueId)
  }

  function InteropFields(e: Attributes): seq<Field> {
    [Value(0x0001, ASCII, if e.interoperabilityThm then THM else R98), Undef(0x0002, VERSION_0100)]
  }

  function ExifScalars(e: Attributes): seq<Field> {
    ExifExposure(e) + ExifLens(e) + ExifNotes(e) + ExifImage(e) + ExifScene(e)
  }

  function ExifFields(e: Attributes): seq<Field> {
    ExifScalars(e) + [SubDir(INTEROPERABILITY_POINTER, InteropFields(e))]
  }

  function GpsPosition(e: Attributes): seq<Field> {
    [Value(0x0000, BYTE, e.gpsVersionId), Value(0x0001, ASCII, Terminated(e.gpsLatitudeRef, 2)),
     Rationals(0x0002, e.gpsLatitude), Value(0x0003, ASCII, Terminated(e.gpsLongitudeRef, 2)),
     Rationals(0x0004, e.gpsLongitude)]
  }

  function GpsDetail(e: Attributes): seq<Field> {
    [Value(0x0005, BYTE, [e.gpsAltitudeRef]), Rationals(0x0006, [e.gpsAltitude]),
     Text(0x001D, e.gpsDateStamp, GPSDATESTAMP_LENGTH), Rationals(0x0007, e.gpsTimestamp)]
    + if e.gpsProcessingMethod == [] then [] else [Undef(0x001B, ASCII_PREFIX + ProcessingMethod(e) + [0])]
  }

  function GpsFields(e: Attributes): seq<Field> {
    GpsPosition(e) + GpsDetail(e)
  }

  /** The thumbnail's directory: its stream starts at `offset` from the TIFF header and has `length` bytes. */
  function FirstFields(e: Attributes, offset: nat, length: nat): seq<Field> {
    [Long(0x0100, e.widthThumb), Long(0x0101, e.heightThumb), Short(0x0103, e.compressionScheme),
     Short(0x0112, e.orientation), Long(0x0201, U32(offset)), Long(0x0202, U32(length))]
  }
}
